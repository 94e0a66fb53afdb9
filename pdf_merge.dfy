/** merge_pdf/merge_into_n_pdfs.py: split the sorted PDF list of a folder into
    at most N contiguous groups of balanced size, one merged file per group. */
module PdfMerge {
  import opened Common
  import Format

  /** The exceptions `chunkify` can raise. */
  datatype ChunkError = ValueError | ZeroDivisionError

  /** Size of chunk i when `total` items go into k chunks: `base_size` plus one
      of the `remainder` extra items for the first chunks. */
  function SizeAt(total: nat, k: nat, i: nat): nat
    requires k > 0
  {
    total / k + (if i < total % k then 1 else 0)
  }

  /** The chunk sizes of `chunkify`, front-loaded: the first `total % k` chunks
      are one longer than the rest. */
  function ChunkSizes(total: nat, k: nat): (r: seq<nat>)
    requires k > 0
    ensures |r| == k
    ensures forall i, j :: 0 <= i < k && 0 <= j < k ==> r[i] <= r[j] + 1
    ensures forall i, j :: 0 <= i <= j < k ==> r[j] <= r[i]
    ensures k <= total ==> forall i :: 0 <= i < k ==> r[i] >= 1
  {
    seq(k, i requires 0 <= i < k => SizeAt(total, k, i))
  }

  /** Where chunk i starts: i full chunks plus the extra items handed out so far. */
  lemma {:induction false} PrefixSum(total: nat, k: nat, i: nat)
    requires 0 < k && i <= k
    ensures Sum(ChunkSizes(total, k)[..i]) == i * (total / k) + Min(i, total % k)
  {
    if i > 0 {
      var s := ChunkSizes(total, k);
      PrefixSum(total, k, i - 1);
      assert s[..i] == s[..i - 1] + [s[i - 1]];
      SumAppend(s[..i - 1], s[i - 1]);
      PrefixStep(total / k, total % k, i);
    }
  }

  lemma PrefixStep(b: nat, r: nat, i: nat)
    requires i > 0
    ensures (i - 1) * b + Min(i - 1, r) + (b + (if i - 1 < r then 1 else 0)) == i * b + Min(i, r)
  {
    assert i * b == (i - 1) * b + b;
  }

  /** The chunk sizes add up to the number of items. */
  lemma ChunkSizesSum(total: nat, k: nat)
    requires k > 0
    ensures Sum(ChunkSizes(total, k)) == total
  {
    PrefixSum(total, k, k);
    assert ChunkSizes(total, k)[..k] == ChunkSizes(total, k);
  }

  /** Number of entries of s above m. */
  function CountAbove(s: seq<nat>, m: nat): nat
  {
    if s == [] then 0 else (if s[0] > m then 1 else 0) + CountAbove(s[1..], m)
  }

  lemma {:induction false} SumTwoValued(s: seq<nat>, m: nat)
    requires forall i :: 0 <= i < |s| ==> s[i] == m || s[i] == m + 1
    ensures Sum(s) == |s| * m + CountAbove(s, m)
  {
    if s != [] {
      SumTwoValued(s[1..], m);
    }
  }

  lemma {:induction false} CountAbovePrefix(s: seq<nat>, m: nat)
    requires forall i, j :: 0 <= i <= j < |s| ==> s[j] <= s[i]
    ensures forall i :: 0 <= i < |s| ==> (s[i] > m <==> i < CountAbove(s, m))
  {
    if s != [] {
      CountAbovePrefix(s[1..], m);
      if s[0] <= m {
        assert forall i :: 0 <= i < |s| ==> s[i] <= m;
        assert CountAbove(s[1..], m) == 0;
      } else {
        forall i | 0 <= i < |s|
          ensures s[i] > m <==> i < CountAbove(s, m)
        {
          if i > 0 {
            assert s[i] == s[1..][i - 1];
          }
        }
      }
    }
  }

  lemma DivisionUnique(total: nat, k: nat, q: nat, c: nat)
    requires 0 <= c < k && total == k * q + c
    ensures q == total / k && c == total % k
  {
    var q', c' := total / k, total % k;
    assert total == k * q' + c';
    if q > q' {
      MulAtLeastFactor(k, q - q');
    } else if q < q' {
      MulAtLeastFactor(k, q' - q);
    }
  }

  lemma MulAtLeastFactor(k: nat, d: nat)
    requires d >= 1
    ensures k * d >= k
  {
    assert k * d == k * (d - 1) + k;
  }

  lemma MulMonotone(a: nat, b: nat, c: nat)
    requires a <= b
    ensures a * c <= b * c
  {
    assert b * c == a * c + (b - a) * c;
  }

  /** Balance and front-loading pin the sizes down: any k sizes that add up to
      `total`, never grow from one chunk to the next and differ by at most one
      are exactly ChunkSizes(total, k). */
  lemma ChunkSizesUnique(total: nat, k: nat, s: seq<nat>)
    requires k > 0 && |s| == k && Sum(s) == total
    requires forall i, j :: 0 <= i <= j < k ==> s[j] <= s[i]
    requires forall i, j :: 0 <= i < k && 0 <= j < k ==> s[i] <= s[j] + 1
    ensures s == ChunkSizes(total, k)
  {
    var m := s[k - 1];
    assert forall i :: 0 <= i < k ==> s[i] == m || s[i] == m + 1 by {
      forall i | 0 <= i < k ensures s[i] == m || s[i] == m + 1 {
        assert s[k - 1] <= s[i] <= s[k - 1] + 1;
      }
    }
    SumTwoValued(s, m);
    CountAbovePrefix(s, m);
    var c := CountAbove(s, m);
    assert c < k;
    DivisionUnique(total, k, m, c);
    forall i | 0 <= i < k
      ensures s[i] == ChunkSizes(total, k)[i]
    {
    }
  }

  /** Chunk i ends where chunk i + 1 starts, never past the end, and the last
      chunk ends exactly at the end. */
  lemma ChunkEnd(total: nat, n: nat, i: nat)
    requires 0 < n <= total && i < n
    ensures i * (total / n) + Min(i, total % n) + total / n + (if i < total % n then 1 else 0)
         == (i + 1) * (total / n) + Min(i + 1, total % n) <= total
    ensures i == n - 1 ==> (i + 1) * (total / n) + Min(i + 1, total % n) == total
  {
    var b, r := total / n, total % n;
    assert total == n * b + r;
    assert (i + 1) * b == i * b + b;
    MulMonotone(i + 1, n, b);
    assert n * b == b * n;
  }

  /** `chunkify(items, n_chunks)`: contiguous chunks in order, `min(n, len)`
      of them, with the front-loaded balanced sizes. Raises ValueError for a
      non-positive count, and divides by zero on an empty list. */
  method Chunkify<T>(items: seq<T>, nChunks: int) returns (r: Result<seq<seq<T>>, ChunkError>)
    ensures r == Err(ValueError) <==> nChunks <= 0
    ensures r == Err(ZeroDivisionError) <==> nChunks > 0 && items == []
    ensures r.Ok? ==> nChunks > 0 && items != []
    ensures r.Ok? ==>
      var k := Min(nChunks, |items|);
      |r.value| == k && Lengths(r.value) == ChunkSizes(|items|, k) && Flatten(r.value) == items
  {
    if nChunks <= 0 {
      return Err(ValueError);
    }
    var n := Min(nChunks, |items|);
    if n == 0 {
      return Err(ZeroDivisionError);
    }
    var baseSize := |items| / n;
    var remainder := |items| % n;
    var chunks: seq<seq<T>> := [];
    var start := 0;
    for i := 0 to n
      invariant Chunked(items, n, chunks, i, start)
    {
      var extra := if i < remainder then 1 else 0;
      var end := start + baseSize + extra;
      ChunkStep(items, n, chunks, i, start);
      chunks := chunks + [items[start..end]];
      start := end;
    }
    ChunkedAll(items, n, chunks, start);
    return Ok(chunks);
  }

  /** After i chunks: they have the sizes `chunkify` gives them and, joined,
      are the items before `start`. */
  ghost predicate Chunked<T>(items: seq<T>, n: nat, chunks: seq<seq<T>>, i: nat, start: nat)
    requires 0 < n
  {
    i <= n && |chunks| == i && start == Sum(ChunkSizes(|items|, n)[..i]) <= |items| &&
    (forall j :: 0 <= j < i ==> |chunks[j]| == SizeAt(|items|, n, j)) &&
    Flatten(chunks) == items[..start]
  }

  lemma ChunkStep<T>(items: seq<T>, n: nat, chunks: seq<seq<T>>, i: nat, start: nat)
    requires 0 < n <= |items| && i < n && Chunked(items, n, chunks, i, start)
    ensures var end := start + SizeAt(|items|, n, i);
      end <= |items| && Chunked(items, n, chunks + [items[start..end]], i + 1, end)
  {
    var end := start + SizeAt(|items|, n, i);
    NextStart(|items|, n, i);
    FlattenAppend(chunks, items[start..end]);
    assert items[..start] + items[start..end] == items[..end];
  }

  /** The next chunk ends where the prefix sum one further says, inside the list. */
  lemma NextStart(total: nat, n: nat, i: nat)
    requires 0 < n <= total && i < n
    ensures Sum(ChunkSizes(total, n)[..i + 1]) == Sum(ChunkSizes(total, n)[..i]) + SizeAt(total, n, i) <= total
  {
    var s := ChunkSizes(total, n);
    assert s[..i + 1] == s[..i] + [s[i]];
    SumAppend(s[..i], s[i]);
    PrefixSum(total, n, i + 1);
    ChunkEnd(total, n, i);
  }

  lemma ChunkedAll<T>(items: seq<T>, n: nat, chunks: seq<seq<T>>, start: nat)
    requires 0 < n && Chunked(items, n, chunks, n, start)
    ensures Lengths(chunks) == ChunkSizes(|items|, n) && Flatten(chunks) == items
  {
    ChunkSizesSum(|items|, n);
    assert ChunkSizes(|items|, n)[..n] == ChunkSizes(|items|, n);
    assert items[..start] == items;
  }

  /** Worked examples: 15 items into 4 chunks gives [4,4,4,3]; 10 into 3 gives
      [4,3,3]; 2 items asked into 5 chunks gives two chunks [1,1]. */
  lemma ChunkSizesExamples()
    ensures ChunkSizes(15, 4) == [4, 4, 4, 3]
    ensures ChunkSizes(10, 3) == [4, 3, 3]
    ensures ChunkSizes(2, Min(5, 2)) == [1, 1]
  {
  }

  /** `merged_{idx:02d}.pdf`. */
  function MergedName(idx: nat): string
  {
    "merged_" + Format.ZeroPad2(idx) + ".pdf"
  }

  lemma MergedNamesDistinct(a: nat, b: nat)
    requires a != b
    ensures MergedName(a) != MergedName(b)
  {
    Format.ZeroPad2Injective(a, b);
    var pa, pb := Format.ZeroPad2(a), Format.ZeroPad2(b);
    Format.ZeroPad2Properties(a);
    Format.ZeroPad2Properties(b);
    assert pa == MergedName(a)[7..|MergedName(a)| - 4];
    assert pb == MergedName(b)[7..|MergedName(b)| - 4];
  }

  /** One merged output: its file name and the PDFs that go into it, in order. */
  datatype MergeJob = MergeJob(name: string, group: seq<string>)

  /** The PDF groups of the jobs, in order. */
  function JobGroups(jobs: seq<MergeJob>): seq<seq<string>>
  {
    seq(|jobs|, i requires 0 <= i < |jobs| => jobs[i].group)
  }

  datatype PdfRun = NoPdfs | Failed(error: ChunkError) | Merges(jobs: seq<MergeJob>)

  /** The `for idx, chunk in enumerate(chunks, start=1)` loop: one job per
      chunk, in order, named by its 1-based number. */
  method NameJobs(chunks: seq<seq<string>>) returns (jobs: seq<MergeJob>)
    ensures JobGroups(jobs) == chunks
    ensures forall i :: 0 <= i < |jobs| ==> jobs[i].name == MergedName(i + 1)
  {
    jobs := [];
    for idx := 1 to |chunks| + 1
      invariant |jobs| == idx - 1
      invariant forall i :: 0 <= i < idx - 1 ==> jobs[i] == MergeJob(MergedName(i + 1), chunks[i])
    {
      jobs := jobs + [MergeJob(MergedName(idx), chunks[idx - 1])];
    }
  }

  /** `main(folder, n_outputs)` on the already sorted PDF names of the folder:
      no PDFs ends the run early; otherwise one job per chunk, numbered from 1. */
  method PlanPdfMerge(pdfFiles: seq<string>, nOutputs: int) returns (run: PdfRun)
    ensures run == NoPdfs <==> pdfFiles == []
    ensures run.Failed? <==> pdfFiles != [] && nOutputs <= 0
    ensures run.Failed? ==> run.error == ValueError
    ensures run.Merges? ==>
      var k := Min(nOutputs, |pdfFiles|);
      var groups := JobGroups(run.jobs);
      |run.jobs| == k && Flatten(groups) == pdfFiles && Lengths(groups) == ChunkSizes(|pdfFiles|, k) &&
      forall i :: 0 <= i < k ==> run.jobs[i].name == MergedName(i + 1)
  {
    if pdfFiles == [] {
      return NoPdfs;
    }
    var chunks := Chunkify(pdfFiles, nOutputs);
    if chunks.Err? {
      assert chunks.error == ValueError;
      return Failed(chunks.error);
    }
    var jobs := NameJobs(chunks.value);
    return Merges(jobs);
  }
}
