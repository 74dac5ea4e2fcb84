/** The batching loop of the `/api/summarize` handler (backend/server.js):
    `processBatch` and the `for (let i = 0; i < sections.length; i += batchSize)`
    loop with its memory check, `results.push(...)` and `processedSections`
    counter. */
module BatchScheduler {
  import opened Wrappers
  import opened MemoryGuard
  import opened JsString
  import opened ResultAggregator

  const BatchSize: nat := 4

  /** What one `await summarizer(section, {...})` call gives back: an output
      whose `[0].summary_text` is the text, an output with no `[0]`, or a
      thrown error. */
  datatype Inference = Summary(text: string) | NoSummary | Threw

  datatype SchedulerError = MemoryLimitReached

  function Min(a: int, b: int): int {
    if a <= b then a else b
  }

  /** The fragment one section contributes: its summary text, or `''` when
      the call threw or returned nothing. */
  function Fragment(o: Inference): string {
    match o
    case Summary(s) => s
    case NoSummary => ""
    case Threw => ""
  }

  /** `processBatch(batch)`: `Promise.all` over the per-section calls. Each
      result lands in the slot of its own section, whatever the order the
      calls complete in, and a failed call only empties its own slot. */
  function ProcessBatch(batch: seq<string>, infer: string -> Inference): (r: seq<string>)
    ensures |r| == |batch|
  {
    if batch == [] then [] else [Fragment(infer(batch[0]))] + ProcessBatch(batch[1..], infer)
  }

  /** Slot `i` of the batch results is the fragment of section `i`. */
  lemma {:induction false} ProcessBatchAt(batch: seq<string>, infer: string -> Inference, i: nat)
    requires i < |batch|
    ensures ProcessBatch(batch, infer)[i] == Fragment(infer(batch[i]))
  {
    if i > 0 {
      ProcessBatchAt(batch[1..], infer, i - 1);
    }
  }

  /** Processing two batches one after the other gives the fragments of
      processing their concatenation at once. */
  lemma {:induction false} ProcessBatchAppend(a: seq<string>, b: seq<string>, infer: string -> Inference)
    ensures ProcessBatch(a + b, infer) == ProcessBatch(a, infer) + ProcessBatch(b, infer)
  {
    if a == [] {
      assert a + b == b;
    } else {
      assert (a + b)[1..] == a[1..] + b;
      ProcessBatchAppend(a[1..], b, infer);
    }
  }

  /** A section whose call fails leaves no trace in the filtered results:
      the sections before it and after it keep their fragments, in order. */
  lemma FailedSectionDropsOut(sections: seq<string>, k: nat, infer: string -> Inference)
    requires k < |sections| && (infer(sections[k]).Threw? || infer(sections[k]).NoSummary?)
    ensures NonEmpty(ProcessBatch(sections, infer))
      == NonEmpty(ProcessBatch(sections[..k], infer)) + NonEmpty(ProcessBatch(sections[k + 1..], infer))
  {
    var before, mid, after := sections[..k], [sections[k]], sections[k + 1..];
    assert sections == before + (mid + after);
    ProcessBatchAppend(before, mid + after, infer);
    ProcessBatchAppend(mid, after, infer);
    ProcessBatchAt(mid, infer, 0);
    var fb, fa := ProcessBatch(before, infer), ProcessBatch(after, infer);
    var e := Fragment(infer(sections[k]));
    assert ProcessBatch(mid, infer) == [e];
    assert ProcessBatch(sections, infer) == fb + [e] + fa;
    NonEmptySkipsEmpty(fb, e, fa);
  }

  /** The joined summary of a run is non-blank exactly when some section's
      summary is non-blank. */
  lemma SummaryIffSomeSectionSummarised(sections: seq<string>, infer: string -> Inference)
    ensures Aggregate(ProcessBatch(sections, infer)).Success? <==>
      exists i :: 0 <= i < |sections| && !AllSpace(Fragment(infer(sections[i])))
  {
    var fragments := ProcessBatch(sections, infer);
    var agg := Aggregate(fragments);
    assert agg.Failure? <==> forall i :: 0 <= i < |fragments| ==> AllSpace(fragments[i]);
    if agg.Success? {
      var i :| 0 <= i < |fragments| && !AllSpace(fragments[i]);
      ProcessBatchAt(sections, infer, i);
    }
    if exists i :: 0 <= i < |sections| && !AllSpace(Fragment(infer(sections[i]))) {
      var i :| 0 <= i < |sections| && !AllSpace(Fragment(infer(sections[i])));
      ProcessBatchAt(sections, infer, i);
      assert !AllSpace(fragments[i]);
    }
  }

  /** The number of batches, `ceil(n / 4)`: the fewest batches of at most
      four sections that cover `n` sections. */
  function NumBatches(n: nat): (b: nat)
    ensures n <= BatchSize * b < n + BatchSize
  {
    (n + BatchSize - 1) / BatchSize
  }

  /** The memory test before batch `b` admits. Reading 0 is the one made
      before the loop; reading `b + 1` is the one made before batch `b`. */
  predicate BatchAdmitted(probe: nat -> MemoryReading, b: nat) {
    Admits(probe(b + 1))
  }

  /** The first batch among `from .. count - 1` whose memory check denies. */
  function FirstDenied(probe: nat -> MemoryReading, from: nat, count: nat): (r: Option<nat>)
    requires from <= count
    ensures r.None? ==> forall b :: from <= b < count ==> BatchAdmitted(probe, b)
    ensures r.Some? ==> from <= r.value < count && !BatchAdmitted(probe, r.value)
    ensures r.Some? ==> forall b :: from <= b < r.value ==> BatchAdmitted(probe, b)
    decreases count - from
  {
    if from == count then None
    else if !BatchAdmitted(probe, from) then Some(from)
    else FirstDenied(probe, from + 1, count)
  }

  /** No batch is denied exactly when every batch is admitted. */
  lemma NoneDeniedIffAllAdmitted(probe: nat -> MemoryReading, count: nat)
    ensures FirstDenied(probe, 0, count).None? <==> forall b :: 0 <= b < count ==> BatchAdmitted(probe, b)
  {
    var d := FirstDenied(probe, 0, count);
    if d.Some? {
      assert !BatchAdmitted(probe, d.value);
    }
  }

  /** The batching loop. Batch `b` is `sections[4b .. min(4b + 4, n))`; the
      memory check before it reads `probe(b + 1)`. If every check admits,
      the results hold one fragment per section in section order and the
      counter ends at `n`; the first denial aborts the job with no results.
      `progress` is the `processedSections` value passed to `updateProgress`
      after each batch; `dispatched` records the batches handed to
      `processBatch`. */
  method RunBatches(sections: seq<string>, probe: nat -> MemoryReading, infer: string -> Inference)
    returns (r: Result<seq<string>, SchedulerError>, progress: seq<nat>, ghost dispatched: seq<seq<string>>)
    ensures FirstDenied(probe, 0, NumBatches(|sections|)).None? ==>
      r == Success(ProcessBatch(sections, infer)) && |dispatched| == NumBatches(|sections|)
    ensures FirstDenied(probe, 0, NumBatches(|sections|)).Some? ==>
      r == Failure(MemoryLimitReached) && |dispatched| == FirstDenied(probe, 0, NumBatches(|sections|)).value
    ensures forall b :: 0 <= b < |dispatched| ==>
      dispatched[b] == sections[BatchSize * b .. Min(BatchSize * b + BatchSize, |sections|)]
    ensures |progress| == |dispatched|
    ensures forall b :: 0 <= b < |progress| ==> progress[b] == Min(BatchSize * (b + 1), |sections|)
  {
    var n := |sections|;
    var results: seq<string> := [];
    var processedSections := 0;
    var i := 0;
    progress, dispatched := [], [];
    while i < n
      invariant i == BatchSize * |dispatched| && i < n + BatchSize
      invariant processedSections == Min(i, n)
      invariant results == ProcessBatch(sections[..processedSections], infer)
      invariant forall b :: 0 <= b < |dispatched| ==>
        dispatched[b] == sections[BatchSize * b .. Min(BatchSize * b + BatchSize, n)]
      invariant |progress| == |dispatched|
      invariant forall b :: 0 <= b < |progress| ==> progress[b] == Min(BatchSize * (b + 1), n)
      invariant forall b :: 0 <= b < |dispatched| ==> BatchAdmitted(probe, b)
    {
      if !Admits(probe(i / BatchSize + 1)) {
        assert !BatchAdmitted(probe, |dispatched|);
        r := Failure(MemoryLimitReached);
        return;
      }
      var batch := sections[i..Min(i + BatchSize, n)];
      var batchResults := ProcessBatch(batch, infer);
      ProcessBatchAppend(sections[..i], batch, infer);
      assert sections[..i] + batch == sections[..Min(i + BatchSize, n)];
      results := results + batchResults;
      processedSections := processedSections + |batch|;
      progress := progress + [processedSections];
      dispatched := dispatched + [batch];
      i := i + BatchSize;
    }
    assert sections[..processedSections] == sections;
    r := Success(results);
  }
}
