/** The batching idiom shared by all three scripts:
    `for i in range(0, len(xs), k): batch = xs[i:i+k]`. */
module Batching {

  function Min(a: int, b: int): int {
    if a <= b then a else b
  }

  /** Number of batches `range(0, n, k)` yields, counted one step at a
      time; `CeilDivIsCeiling` relates it to the ceiling of n / k. */
  function CeilDiv(n: nat, k: nat): nat
    requires k > 0
    decreases n
  {
    if n == 0 then 0 else if n <= k then 1 else 1 + CeilDiv(n - k, k)
  }

  function Flatten<T>(xss: seq<seq<T>>): seq<T> {
    if |xss| == 0 then [] else xss[0] + Flatten(xss[1..])
  }

  /** Python's slice `xs[lo:hi]` for non-negative bounds: both are
      clamped to the length, and a crossed pair gives the empty list. */
  function PySlice<T>(xs: seq<T>, lo: nat, hi: nat): (r: seq<T>)
    ensures lo <= hi <= |xs| ==> r == xs[lo..hi]
    ensures Min(lo, |xs|) <= Min(hi, |xs|) ==> r == xs[Min(lo, |xs|)..Min(hi, |xs|)]
    ensures Min(lo, |xs|) > Min(hi, |xs|) ==> r == []
    ensures |r| == if lo <= hi then Min(hi, |xs|) - Min(lo, |xs|) else 0
  {
    var a := Min(lo, |xs|);
    var b := Min(hi, |xs|);
    if a <= b then xs[a..b] else []
  }

  lemma {:induction false} MulBound(d: int, k: int)
    requires k > 0
    ensures d >= 1 ==> d * k >= k
    ensures d <= -1 ==> d * k <= -k
    decreases if d < 0 then -d else d
  {
    if d > 1 {
      MulBound(d - 1, k);
      assert d * k == (d - 1) * k + k;
    } else if d < -1 {
      MulBound(d + 1, k);
      assert d * k == (d + 1) * k - k;
    }
  }

  lemma DivUnique(a: int, k: int, q: int)
    requires k > 0 && q * k <= a < q * k + k
    ensures a / k == q
  {
    var q' := a / k;
    assert a == q' * k + a % k;
    MulBound(q' - q, k);
    assert (q' - q) * k == q' * k - q * k;
  }

  /** The step count is the ceiling of n / k: the last batch starts
      below n and the batches cover n. */
  lemma {:induction false} CeilDivIsCeiling(n: nat, k: nat)
    requires k > 0
    ensures CeilDiv(n, k) == (n + k - 1) / k
    ensures (CeilDiv(n, k) - 1) * k < n <= CeilDiv(n, k) * k
    decreases n
  {
    var c := CeilDiv(n, k);
    if n == 0 {
      DivUnique(k - 1, k, 0);
    } else if n <= k {
      DivUnique(n + k - 1, k, 1);
    } else {
      CeilDivIsCeiling(n - k, k);
      var c' := CeilDiv(n - k, k);
      assert c == c' + 1;
      assert c * k == c' * k + k;
      assert (c - 1) * k == (c' - 1) * k + k;
      DivUnique(n + k - 1, k, c);
    }
  }

  /** The batches of `xs`, each the next `k` elements, the last one
      possibly shorter; `ChunksPartition` states their shape. */
  function Chunks<T>(xs: seq<T>, k: nat): (r: seq<seq<T>>)
    requires k > 0
    ensures |r| == CeilDiv(|xs|, k)
    decreases |xs|
  {
    if |xs| == 0 then []
    else if |xs| <= k then [xs]
    else [xs[..k]] + Chunks(xs[k..], k)
  }

  /** The batches partition `xs` in order: there are ceil(|xs| / k) of
      them, none is empty, none is longer than `k`, all but the last have
      exactly `k` elements, and together they are `xs`. */
  lemma {:induction false} ChunksPartition<T>(xs: seq<T>, k: nat)
    requires k > 0
    ensures Flatten(Chunks(xs, k)) == xs
    ensures |Chunks(xs, k)| == CeilDiv(|xs|, k) == (|xs| + k - 1) / k
    ensures forall j :: 0 <= j < |Chunks(xs, k)| ==> 0 < |Chunks(xs, k)[j]| <= k
    ensures forall j :: 0 <= j < |Chunks(xs, k)| - 1 ==> |Chunks(xs, k)[j]| == k
    decreases |xs|
  {
    CeilDivIsCeiling(|xs|, k);
    var r := Chunks(xs, k);
    if |xs| > k {
      var rest := Chunks(xs[k..], k);
      ChunksPartition(xs[k..], k);
      assert r == [xs[..k]] + rest;
      assert r[1..] == rest;
      assert Flatten(r) == xs[..k] + Flatten(rest);
      assert xs == xs[..k] + xs[k..];
      assert forall j :: 1 <= j < |r| ==> r[j] == rest[j - 1];
    } else if |xs| > 0 {
      assert r == [xs];
      assert Flatten(r) == xs + Flatten([]);
    }
  }

  /** Batch `j` is the slice `xs[j*k : j*k+k]`: it starts at the `j`-th
      value of `range(0, len(xs), k)`. */
  lemma ChunkAt<T>(xs: seq<T>, k: nat, j: nat)
    requires k > 0 && j < CeilDiv(|xs|, k)
    ensures 0 <= j * k < |xs|
    ensures Chunks(xs, k)[j] == xs[j * k .. Min(j * k + k, |xs|)]
  {
    MapBatchesAt(Batch, xs, k, j);
    MapBatchesOfBatch(Chunks(xs, k), 0);
  }

  /** The batch itself, whatever its offset. */
  function Batch<T>(offset: nat, batch: seq<T>): seq<T> {
    batch
  }

  lemma {:induction false} MapBatchesOfBatch<T>(batches: seq<seq<T>>, offset: nat)
    ensures MapBatches(Batch, batches, offset) == batches
    decreases |batches|
  {
    if |batches| > 0 {
      MapBatchesOfBatch(batches[1..], offset + |batches[0]|);
    }
  }

  /** The batches of a list longer than `k`: its first `k` elements, then
      the batches of the rest. */
  lemma ChunksCons<T>(xs: seq<T>, k: nat)
    requires 0 < k < |xs|
    ensures Chunks(xs, k) == [xs[..k]] + Chunks(xs[k..], k)
    ensures Chunks(xs, k)[0] == xs[..k] && Chunks(xs, k)[1..] == Chunks(xs[k..], k)
    ensures CeilDiv(|xs[k..]|, k) == CeilDiv(|xs|, k) - 1
  {
    assert ([xs[..k]] + Chunks(xs[k..], k))[1..] == Chunks(xs[k..], k);
  }

  /** Entry `j > 0` of a mapping is entry `j - 1` of the mapping of the
      remaining batches. */
  lemma MapBatchesStep<T, U>(f: (nat, seq<T>) -> U, batches: seq<seq<T>>, offset: nat, j: nat)
    requires 0 < j < |batches|
    ensures MapBatches(f, batches, offset)[j]
         == MapBatches(f, batches[1..], offset + |batches[0]|)[j - 1]
  {
  }

  /** `j * k`, the start of batch `j`, counted as the loop counts it. */
  function BatchStart(j: nat, k: nat): nat {
    if j == 0 then 0 else BatchStart(j - 1, k) + k
  }

  lemma {:induction false} BatchStartIsProduct(j: nat, k: nat)
    ensures BatchStart(j, k) == j * k
  {
    if j > 0 {
      BatchStartIsProduct(j - 1, k);
      assert j * k == (j - 1) * k + k;
    }
  }

  lemma SliceOfDrop<T>(xs: seq<T>, k: nat, a: nat, b: nat)
    requires k <= |xs| && a <= b <= |xs| - k
    ensures xs[k..][a..b] == xs[k + a .. k + b]
  {
  }

  /** The loop's step from `i` to `i + k`: the batches of the remainder
      from `i` are the batch at `i` followed by those of the remainder from
      `i + k`. */
  lemma ChunksFrom<T>(xs: seq<T>, k: nat, i: nat)
    requires k > 0 && i < |xs|
    ensures Chunks(xs[i..], k)
         == [xs[i .. Min(i + k, |xs|)]] + Chunks(xs[Min(i + k, |xs|)..], k)
  {
    if |xs| - i > k {
      assert xs[i..][k..] == xs[i + k..];
      assert xs[i..][..k] == xs[i .. i + k];
    } else {
      assert xs[i .. Min(i + k, |xs|)] == xs[i..];
      assert xs[Min(i + k, |xs|)..] == [];
    }
  }

  /** Applies `f` to every batch together with the list position of the
      batch's first element, `offset` being the position of the first
      batch: the body of a `for i in range(0, len(xs), k)` loop sees `i`
      and `xs[i:i+k]`. */
  function MapBatches<T, U>(f: (nat, seq<T>) -> U, batches: seq<seq<T>>, offset: nat): (r: seq<U>)
    ensures |r| == |batches|
  {
    if |batches| == 0 then []
    else [f(offset, batches[0])] + MapBatches(f, batches[1..], offset + |batches[0]|)
  }

  /** Batch `j` is seen with its start `j*k` and the slice `xs[j*k : j*k+k]`. */
  lemma MapBatchesAt<T, U>(f: (nat, seq<T>) -> U, xs: seq<T>, k: nat, j: nat)
    requires k > 0 && j < CeilDiv(|xs|, k)
    ensures 0 <= j * k < |xs|
    ensures MapBatches(f, Chunks(xs, k), 0)[j] == f(j * k, xs[j * k .. Min(j * k + k, |xs|)])
  {
    BatchStartIsProduct(j, k);
    MapBatchesAtStart(f, xs, k, j, 0);
  }

  lemma {:induction false} MapBatchesAtStart<T, U>(f: (nat, seq<T>) -> U, xs: seq<T>, k: nat,
                                                   j: nat, offset: nat)
    requires k > 0 && j < CeilDiv(|xs|, k)
    ensures BatchStart(j, k) < |xs|
    ensures MapBatches(f, Chunks(xs, k), offset)[j]
         == f(offset + BatchStart(j, k), xs[BatchStart(j, k) .. Min(BatchStart(j, k) + k, |xs|)])
    decreases j, 1
  {
    if j == 0 {
      MapBatchesFirst(f, xs, k, offset);
    } else {
      MapBatchesShift(f, xs, k, j, offset);
    }
  }

  lemma MapBatchesFirst<T, U>(f: (nat, seq<T>) -> U, xs: seq<T>, k: nat, offset: nat)
    requires k > 0 && |xs| > 0
    ensures MapBatches(f, Chunks(xs, k), offset)[0] == f(offset, xs[0 .. Min(k, |xs|)])
  {
    if |xs| > k {
      ChunksCons(xs, k);
    } else {
      assert Chunks(xs, k) == [xs];
      assert xs[0 .. Min(k, |xs|)] == xs;
    }
  }

  /** Entry `j` of the mapping of `xs` is entry `j - 1` of the mapping of
      `xs[k:]`, shifted by `k`. */
  lemma {:induction false} MapBatchesShift<T, U>(f: (nat, seq<T>) -> U, xs: seq<T>, k: nat,
                                                 j: nat, offset: nat)
    requires k > 0 && 0 < j < CeilDiv(|xs|, k)
    ensures BatchStart(j, k) < |xs|
    ensures MapBatches(f, Chunks(xs, k), offset)[j]
         == f(offset + BatchStart(j, k), xs[BatchStart(j, k) .. Min(BatchStart(j, k) + k, |xs|)])
    decreases j, 0
  {
    var tail := xs[k..];
    ChunksCons(xs, k);
    MapBatchesAtStart(f, tail, k, j - 1, offset + k);
    MapBatchesStep(f, Chunks(xs, k), offset, j);
    var s := BatchStart(j - 1, k);
    var e := Min(s + k, |tail|);
    SliceOfDrop(xs, k, s, e);
    assert BatchStart(j, k) == k + s && Min(k + s + k, |xs|) == k + e;
  }

  /** The loop's step from `i` to the next start, for the mapped batches. */
  lemma MapBatchesFrom<T, U>(f: (nat, seq<T>) -> U, xs: seq<T>, k: nat, i: nat)
    requires k > 0 && i < |xs|
    ensures MapBatches(f, Chunks(xs[i..], k), i)
         == [f(i, xs[i .. Min(i + k, |xs|)])]
            + MapBatches(f, Chunks(xs[Min(i + k, |xs|)..], k), Min(i + k, |xs|))
  {
    ChunksFrom(xs, k, i);
    var c := Chunks(xs[i..], k);
    assert c[1..] == Chunks(xs[Min(i + k, |xs|)..], k);
  }

  /** The batch-loop shape used by the scripts, written as a loop over the
      start offsets `i = 0, k, 2k, ...`. */
  method Partition<T>(xs: seq<T>, k: nat) returns (batches: seq<seq<T>>)
    requires k > 0
    ensures batches == Chunks(xs, k)
    ensures Flatten(batches) == xs
  {
    batches := [];
    var i := 0;
    while i < |xs|
      invariant 0 <= i <= |xs|
      invariant batches + Chunks(xs[i..], k) == Chunks(xs, k)
      decreases |xs| - i
    {
      var next := Min(i + k, |xs|);
      var batch := xs[i .. next];
      ChunksFrom(xs, k, i);
      assert batches + Chunks(xs[i..], k) == (batches + [batch]) + Chunks(xs[next..], k);
      batches := batches + [batch];
      i := next;
    }
    assert xs[|xs|..] == [];
    ChunksPartition(xs, k);
  }
}
