/** The `POST /api/summarize` handler (backend/server.js): the upload and
    model checks, the blank-text check, preprocessing, the memory gate, the
    batching loop and the final aggregation, each failure with the status
    and message the handler answers with. PDF extraction is a parameter: the
    handler sees the uploaded document only as the extracted `text`. */
module SummarizeEndpoint {
  import opened Wrappers
  import opened JsString
  import opened MemoryGuard
  import opened ResultAggregator
  import TP = TextPreprocessor
  import BS = BatchScheduler

  /** Why the handler answers with an error. */
  datatype SummarizeError =
    | NoFileUploaded
    | ModelInitFailed
    | NoTextExtracted
    | EmptyAfterPreprocessing
    | ServerBusy
    | MemoryLimitReached
    | SummaryFailed

  /** The successful response body `{ originalText, summary }`. */
  datatype Summarized = Summarized(originalText: string, summary: string)

  function StatusCode(e: SummarizeError): nat {
    if e == NoFileUploaded then 400 else 500
  }

  /** The message the handler sends: `error` for the two early returns,
      `details` (the thrown error's message) for the others. */
  function Message(e: SummarizeError): string {
    match e
    case NoFileUploaded => "No file uploaded"
    case ModelInitFailed => "Failed to initialize summarization model. Please try again later."
    case NoTextExtracted => "No text could be extracted from the PDF"
    case EmptyAfterPreprocessing => "Text is empty after preprocessing"
    case ServerBusy => "Server is currently under high load. Please try again in a few minutes."
    case MemoryLimitReached => "Server memory limit reached. Please try with a smaller document or try again later."
    case SummaryFailed => "Failed to generate summary. Please try again with a different document."
  }

  /** The handler's outcome. `upload` is the extracted text of the uploaded
      file, if any; `modelLoaded` says whether the summariser is already
      loaded and `initSucceeds` whether loading it now would succeed;
      `probe(0)` is the memory reading before the loop and `probe(b + 1)`
      the one before batch `b`; `infer` is the summariser. */
  function Outcome(upload: Option<string>, modelLoaded: bool, initSucceeds: bool,
                   probe: nat -> MemoryReading, infer: string -> BS.Inference): Result<Summarized, SummarizeError>
  {
    if upload.None? then Failure(NoFileUploaded)
    else if !modelLoaded && !initSucceeds then Failure(ModelInitFailed)
    else if Trim(upload.value) == [] then Failure(NoTextExtracted)
    else Respond(upload.value, TP.PreprocessText(upload.value), probe, infer)
  }

  /** The rest of the handler once `preprocessText` has answered `pre`. */
  function Respond(text: string, pre: Result<seq<string>, TP.PreprocessError>,
                   probe: nat -> MemoryReading, infer: string -> BS.Inference): Result<Summarized, SummarizeError>
  {
    match pre
    case Failure(_) => Failure(EmptyAfterPreprocessing)
    case Success(sections) =>
      if !Admits(probe(0)) then Failure(ServerBusy)
      else if BS.FirstDenied(probe, 0, BS.NumBatches(|sections|)).Some? then Failure(MemoryLimitReached)
      else match Aggregate(BS.ProcessBatch(sections, infer))
        case Failure(_) => Failure(SummaryFailed)
        case Success(s) => Success(Summarized(text, s))
  }

  /** Every memory check before a batch admits, and the summary of at
      least one section is not blank. */
  predicate BatchesSucceed(sections: seq<string>, probe: nat -> MemoryReading, infer: string -> BS.Inference) {
    && (forall b :: 0 <= b < BS.NumBatches(|sections|) ==> BS.BatchAdmitted(probe, b))
    && exists i :: 0 <= i < |sections| && !AllSpace(BS.Fragment(infer(sections[i])))
  }

  /** After preprocessing, the request succeeds exactly when some text was
      left, the first memory check admits and the batches succeed. */
  lemma RespondSuccessIff(text: string, pre: Result<seq<string>, TP.PreprocessError>,
                          probe: nat -> MemoryReading, infer: string -> BS.Inference)
    ensures Respond(text, pre, probe, infer).Success? <==>
      pre.Success? && Admits(probe(0)) && BatchesSucceed(pre.value, probe, infer)
  {
    if pre.Success? && Admits(probe(0)) {
      BS.NoneDeniedIffAllAdmitted(probe, BS.NumBatches(|pre.value|));
      BS.SummaryIffSomeSectionSummarised(pre.value, infer);
    }
  }

  /** The handler, step by step. On success the last progress report
      counts every section. */
  method SummarizeDocument(upload: Option<string>, modelLoaded: bool, initSucceeds: bool,
                           probe: nat -> MemoryReading, infer: string -> BS.Inference)
    returns (r: Result<Summarized, SummarizeError>, progress: seq<nat>)
    ensures r == Outcome(upload, modelLoaded, initSucceeds, probe, infer)
    ensures r.Success? ==> |progress| >= 1 && progress[|progress| - 1] == |TP.PreprocessText(upload.value).value|
  {
    progress := [];
    if upload.None? {
      return Failure(NoFileUploaded), progress;
    }
    if !modelLoaded && !initSucceeds {
      return Failure(ModelInitFailed), progress;
    }
    var text := upload.value;
    if Trim(text) == [] {
      return Failure(NoTextExtracted), progress;
    }
    var pre := TP.PreprocessText(text);
    if pre.Failure? {
      return Failure(EmptyAfterPreprocessing), progress;
    }
    var sections := pre.value;
    if !Admits(probe(0)) {
      return Failure(ServerBusy), progress;
    }
    var batched;
    ghost var dispatched;
    batched, progress, dispatched := BS.RunBatches(sections, probe, infer);
    if batched.Failure? {
      return Failure(MemoryLimitReached), progress;
    }
    var aggregated := Aggregate(batched.value);
    if aggregated.Failure? {
      return Failure(SummaryFailed), progress;
    }
    r := Success(Summarized(text, aggregated.value));
  }

  /** The request succeeds exactly when a file came, the model is
      available, the extracted text is not blank, preprocessing leaves some
      text, every memory check admits and at least one section's summary is
      not blank. */
  lemma SuccessIff(upload: Option<string>, modelLoaded: bool, initSucceeds: bool,
                   probe: nat -> MemoryReading, infer: string -> BS.Inference)
    ensures Outcome(upload, modelLoaded, initSucceeds, probe, infer).Success? <==>
      upload.Some? && (modelLoaded || initSucceeds) && Trim(upload.value) != []
      && TP.PreprocessText(upload.value).Success?
      && Admits(probe(0)) && BatchesSucceed(TP.PreprocessText(upload.value).value, probe, infer)
  {
    if upload.Some? && (modelLoaded || initSucceeds) && Trim(upload.value) != [] {
      RespondSuccessIff(upload.value, TP.PreprocessText(upload.value), probe, infer);
    }
  }

  /** When every section's summary fails, the request fails with
      `SummaryFailed`, unless an earlier check already stopped it. */
  lemma AllSectionsFailing(upload: Option<string>, modelLoaded: bool, initSucceeds: bool,
                           probe: nat -> MemoryReading, infer: string -> BS.Inference)
    requires forall s :: infer(s).Threw? || infer(s).NoSummary?
    ensures Outcome(upload, modelLoaded, initSucceeds, probe, infer).Failure?
  {
    SuccessIff(upload, modelLoaded, initSucceeds, probe, infer);
  }

  /** A denied memory check before some batch aborts the whole request, so
      no partial summary is ever returned: the handler fails as busy or at
      the memory limit, whatever the summariser would have produced. */
  lemma DenialAborts(text: string, sections: seq<string>, probe: nat -> MemoryReading,
                     infer: string -> BS.Inference, b: nat)
    requires b < BS.NumBatches(|sections|) && !BS.BatchAdmitted(probe, b)
    ensures Respond(text, Success(sections), probe, infer) == Failure(ServerBusy)
         || Respond(text, Success(sections), probe, infer) == Failure(MemoryLimitReached)
  {
    BS.NoneDeniedIffAllAdmitted(probe, BS.NumBatches(|sections|));
  }
}
