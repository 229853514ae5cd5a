/** The two HTTP handlers, `TextAnalyzer` (function_app.py:26-103) and
    `GetAnalysisHistory` (function_app.py:105-135), as functions from what a
    request carries and what the store answers to the response. The store is a
    parameter: `upsert` maps the record offered to it to an outcome, `query`
    maps the page size to the rows read or a failure. */
module Handlers {
  import opened Wrappers
  import opened Metrics
  import opened Records
  import opened HistoryLimit

  /** What `req.get_json()` yields: not JSON at all (it raises `ValueError`),
      or an object whose `text` member is absent or a string. A member that is
      present but falsy and not a string (`0`, `false`, `null`, `[]`, `{}`) is
      rejected by `not text` exactly as an absent one is, so it is `None`
      here. */
  datatype RequestBody = NotJson | JsonObject(textField: Option<string>)

  /** What writing a record does: the container lookup and `upsert_item` both
      succeed, or one of them raises with the given message. */
  datatype StoreOutcome = Stored | StoreFailed(details: string)

  /** What the history query does: it returns rows, or raises. */
  datatype ReadOutcome = Rows(items: seq<Summary>) | ReadFailed(details: string)

  const NoTextError := "No text provided"
  const GetExample := "/api/TextAnalyzer?text=Hello world"
  const PostExampleText := "Hello world"
  const StoreFailedError := "Failed to store result in Cosmos DB"
  const ReadFailedError := "Failed to retrieve history"

  /** The JSON bodies the handlers answer with. */
  datatype Response =
    | NoTextGiven(error: string, getExample: string, postExampleText: string)
    | ServerError(error: string, details: string)
    | AnalysisResult(id: string, analysis: Analysis, metadata: Metadata)
    | HistoryResult(count: nat, results: seq<Summary>)

  function StatusCode(r: Response): int {
    match r
    case NoTextGiven(_, _, _) => 400
    case ServerError(_, _) => 500
    case AnalysisResult(_, _, _) => 200
    case HistoryResult(_, _) => 200
  }

  /** A value Python's `not text` does not reject: present and non-empty. */
  predicate Usable(t: Option<string>) {
    t.Some? && t.value != ""
  }

  /** The `text` query parameter if usable, else the body's `text` member. */
  function ResolveText(query: Option<string>, body: RequestBody): (t: Option<string>)
    ensures Usable(t) || t.None?
    ensures t.None? <==> !Usable(query) && !(body.JsonObject? && Usable(body.textField))
    ensures Usable(query) ==> t == query
    ensures !Usable(query) && t.Some? ==> body.JsonObject? && t == body.textField
  {
    if Usable(query) then query
    else if body.JsonObject? && Usable(body.textField) then body.textField
    else None
  }

  /** One `TextAnalyzer` call: the response, and the record offered to the
      store, if one was. */
  datatype AnalyzeRun = AnalyzeRun(response: Response, upserted: Option<Record>)

  /** `TextAnalyzer`, with `now` the clock reading and `newId` the fresh id the
      handler would generate. */
  function HandleAnalyze(query: Option<string>, body: RequestBody, now: string, newId: string,
                         upsert: Record -> StoreOutcome): (run: AnalyzeRun)
    ensures StatusCode(run.response) in {200, 400, 500}
    // No usable text: a 400 with both usage examples, and the store is never called.
    ensures ResolveText(query, body).None? <==> StatusCode(run.response) == 400
    ensures ResolveText(query, body).None? ==>
              run == AnalyzeRun(NoTextGiven(NoTextError, GetExample, PostExampleText), None)
    // Usable text: exactly one record, holding the analysis of that text, is offered.
    ensures ResolveText(query, body).Some? ==>
              var text := ResolveText(query, body).value;
              run.upserted == Some(Record(newId, Analyze(text), BuildMetadata(text, now), text))
    // Stored: a 200 carrying the stored record minus its original text.
    ensures StatusCode(run.response) == 200 <==>
              run.upserted.Some? && upsert(run.upserted.value) == Stored
    ensures StatusCode(run.response) == 200 ==>
              var s := Summarize(run.upserted.value);
              run.response == AnalysisResult(s.id, s.analysis, s.metadata)
    // Not stored: a 500 with the failure detail and without the id.
    ensures StatusCode(run.response) == 500 ==>
              run.upserted.Some? && upsert(run.upserted.value).StoreFailed? &&
              run.response == ServerError(StoreFailedError, upsert(run.upserted.value).details)
  {
    match ResolveText(query, body)
    case None => AnalyzeRun(NoTextGiven(NoTextError, GetExample, PostExampleText), None)
    case Some(text) =>
      var analysis := Analyze(text);
      var metadata := BuildMetadata(text, now);
      var record := Record(newId, analysis, metadata, text);
      match upsert(record)
      case StoreFailed(details) => AnalyzeRun(ServerError(StoreFailedError, details), Some(record))
      case Stored => AnalyzeRun(AnalysisResult(newId, analysis, metadata), Some(record))
  }

  /** A usable query parameter wins whatever the body holds. */
  lemma QueryParameterFirst(query: Option<string>, body1: RequestBody, body2: RequestBody,
                            now: string, newId: string, upsert: Record -> StoreOutcome)
    requires Usable(query)
    ensures HandleAnalyze(query, body1, now, newId, upsert) == HandleAnalyze(query, body2, now, newId, upsert)
  {
  }

  /** The analysis in a 200 response keeps the invariants of every analysis. */
  lemma AnalyzeResponseMetrics(query: Option<string>, body: RequestBody, now: string, newId: string,
                               upsert: Record -> StoreOutcome)
    ensures var r := HandleAnalyze(query, body, now, newId, upsert).response;
            StatusCode(r) == 200 ==>
              && r.AnalysisResult?
              && r.id == newId
              && r.analysis.sentenceCount >= 1
              && r.analysis.paragraphCount >= 1
              && r.analysis.characterCount >= 1
              && |r.metadata.textPreview| <= PreviewLength + |Ellipsis|
  {
  }

  /** One `GetAnalysisHistory` call: the response, and the page size queried. */
  datatype HistoryRun = HistoryRun(response: Response, limit: int)

  /** `GetAnalysisHistory`. */
  function HandleHistory(limitParam: Option<string>, query: int -> ReadOutcome): (run: HistoryRun)
    ensures MinLimit <= run.limit <= MaxLimit
    ensures run.limit == EffectiveLimit(LimitText(limitParam))
    ensures StatusCode(run.response) == 200 <==> query(run.limit).Rows?
    ensures query(run.limit).Rows? ==>
              run.response == HistoryResult(|query(run.limit).items|, query(run.limit).items)
    ensures query(run.limit).ReadFailed? ==>
              run.response == ServerError(ReadFailedError, query(run.limit).details)
  {
    var limit := EffectiveLimit(LimitText(limitParam));
    match query(limit)
    case ReadFailed(details) => HistoryRun(ServerError(ReadFailedError, details), limit)
    case Rows(items) => HistoryRun(HistoryResult(|items|, items), limit)
  }

  /** The store keeps its `TOP n` promise for page size `n`. */
  predicate HonoursTop(query: int -> ReadOutcome, n: int) {
    query(n).Rows? ==> |query(n).items| <= n
  }

  /** If the store keeps its `TOP` promise for the page size queried, a history response never holds
      more than 50 rows, nor more than a requested number of at least 1. */
  lemma HistoryCountBound(limitParam: Option<string>, query: int -> ReadOutcome)
    requires HonoursTop(query, HandleHistory(limitParam, query).limit)
    ensures var r := HandleHistory(limitParam, query).response;
            r.HistoryResult? ==>
              && r.count == |r.results|
              && r.count <= MaxLimit
              && (ParseInt(LimitText(limitParam)).Some? && ParseInt(LimitText(limitParam)).value >= MinLimit ==>
                    r.count <= ParseInt(LimitText(limitParam)).value)
  {
  }

  /** A record written by `TextAnalyzer` and later read back by
      `GetAnalysisHistory` shows the same id, analysis and metadata the analyze
      response showed. */
  lemma WrittenRecordReadBack(query: Option<string>, body: RequestBody, now: string, newId: string,
                              upsert: Record -> StoreOutcome, limitParam: Option<string>,
                              read: int -> ReadOutcome)
    ensures var run := HandleAnalyze(query, body, now, newId, upsert);
            var history := HandleHistory(limitParam, read);
            && StatusCode(run.response) == 200
            && read(history.limit).Rows?
            && Summarize(run.upserted.value) in read(history.limit).items
            ==>
            && history.response.HistoryResult?
            && Summary(run.response.id, run.response.analysis, run.response.metadata) in history.response.results
  {
  }
}
