/** `RequestResponseInfoLogFilter`: configuration at `init`, the response
    logging decision, the content-type dispatch of `doFilter`, the
    try/catch/finally of `filterAndLog` and the record `doLog` emits. The
    chain, the clock and the captured response are inputs; what the filter
    does is recorded as a trace of events. */
module LogFilter {
  import opened Wrappers
  import opened Text
  import opened Servlet
  import opened LineReader
  import opened ReadableRequests
  import opened Whitelist
  import opened Snapshot

  const LONG_MIN: int := -0x8000_0000_0000_0000
  const LONG_MAX: int := 0x7fff_ffff_ffff_ffff

  /** A Java `long`. */
  type Long = x: int | LONG_MIN <= x <= LONG_MAX

  /** The mime types `doFilter` dispatches on. */
  const APPLICATION_JSON: string := "application/json"
  const MULTIPART_FORM_DATA: string := "multipart/form-data"

  /** The filter's fields after `init`. */
  datatype FilterState = FilterState(config: Option<FilterConfig>, whitePatterns: set<Pattern>)

  /** `init`: keeps the configuration and, when there is one, builds the
      whitelist from its `whitePatterns` parameter; otherwise the set stays empty. */
  function Init(config: Option<FilterConfig>, compiles: Compiler): (state: FilterState)
    ensures state.config == config
    ensures config.None? ==> state.whitePatterns == {}
    ensures config.Some? && config.value.GetInitParameter("whitePatterns").None? ==> state.whitePatterns == {}
    ensures config.Some? && config.value.GetInitParameter("whitePatterns").Some? ==>
      var entries := Entries(config.value.GetInitParameter("whitePatterns").value);
      && (forall e | e in entries && compiles(e) :: Pattern(e) in state.whitePatterns)
      && (forall p | p in state.whitePatterns :: p.source in entries && compiles(p.source))
  {
    match config
    case None => FilterState(None, {})
    case Some(c) => FilterState(config, InitWhitelist(c.GetInitParameter("whitePatterns"), compiles))
  }

  /** `Boolean.parseBoolean`: true exactly for "true" in any letter case. */
  predicate ParseBoolean(s: Option<string>)
  {
    s.Some? && EqualsIgnoreCase(s.value, "true")
  }

  /** `logResponse`. It reads `logResp` from the configuration first, which
      throws `NullPointerException` when there is none; otherwise the
      leading `true ||` makes the answer true whatever `logResp` and the
      whitelist say, and the whitelist is never consulted. */
  function LogResponse(state: FilterState, request: HttpRequest, matcher: Matcher): (r: Result<bool, Throwable>)
    ensures r.Success? <==> state.config.Some?
    ensures r.Failure? ==> r.error == NullPointerException
    ensures r.Success? ==> r.value
  {
    match state.config
    case None => Failure(NullPointerException)
    case Some(c) =>
      var logResp := c.GetInitParameter("logResp");
      Success(true || ParseBoolean(logResp) || IsInWhite(state.whitePatterns, request.requestUri, matcher))
  }

  /** `a - b` on Java longs, wrapping around on overflow. */
  function LongSub(a: Long, b: Long): (r: Long)
    ensures (r - (a - b)) % 0x1_0000_0000_0000_0000 == 0
    ensures LONG_MIN <= a - b <= LONG_MAX ==> r == a - b
    ensures 0 <= a && 0 <= b ==> r == a - b
  {
    var d := a - b;
    if d > LONG_MAX then d - 0x1_0000_0000_0000_0000
    else if d < LONG_MIN then d + 0x1_0000_0000_0000_0000
    else d
  }

  /** The request as the chain receives it: the original, or the
      buffered wrapper. */
  datatype Forwarded = OriginalRequest | BufferedRequest(wrapper: ReadableRequest)

  /** The response as the chain receives it. */
  datatype ResponseHandle = OriginalResponse | WrappedResponse

  /** What the chain did. */
  datatype ChainOutcome = Returned | Threw(error: Throwable)

  /** The fields of the log line: the snapshot, the timestamps, the cost and,
      when the response is logged, its content. */
  datatype LogRecord = LogRecord(info: string, start: Long, end: Long, cost: Long, response: Option<string>)

  /** The observable steps of one request. */
  datatype Event =
    | ChainInvoked(request: Forwarded, response: ResponseHandle)
    | ChainFailureLogged(error: Throwable)
    | RecordLogged(record: LogRecord)
    | ResponseContentFailureLogged(error: Throwable)

  /** An event `doLog` produces. */
  predicate IsLogStep(e: Event)
  {
    e.RecordLogged? || e.ResponseContentFailureLogged?
  }

  /** How `doFilter` ends for its caller. */
  datatype FilterOutcome = Completed | Rethrown(error: Throwable) | Aborted(error: Throwable)

  datatype FilterRun = FilterRun(trace: seq<Event>, outcome: FilterOutcome)

  /** `doLog`: the cost is the end time minus the start time. Without
      response logging the record carries no response; with it, the record
      carries the captured content, and a failure to read that content is
      logged instead of the record and never raised. */
  function DoLog(logResponse: bool, info: string, start: Long, end: Long, captured: Result<string, Throwable>): (step: Event)
    ensures IsLogStep(step)
    ensures step.RecordLogged? ==>
      step.record.info == info && step.record.start == start && step.record.end == end
      && step.record.cost == LongSub(end, start)
    ensures step.RecordLogged? && 0 <= start && 0 <= end ==> step.record.cost == end - start
    ensures !logResponse ==> step.RecordLogged? && step.record.response.None?
    ensures logResponse && captured.Success? ==> step.RecordLogged? && step.record.response == Some(captured.value)
    ensures logResponse && captured.Failure? ==> step == ResponseContentFailureLogged(captured.error)
  {
    var cost := LongSub(end, start);
    if !logResponse then RecordLogged(LogRecord(info, start, end, cost, None))
    else match captured
      case Success(content) => RecordLogged(LogRecord(info, start, end, cost, Some(content)))
      case Failure(t) => ResponseContentFailureLogged(t)
  }

  /** `filterAndLog`: the chain is invoked once, first; a throwable from it is
      logged and rethrown unchanged; `doLog` runs once, last, either way. */
  function FilterAndLog(request: Forwarded, response: ResponseHandle, info: string, start: Long, end: Long,
                        logResponse: bool, chain: ChainOutcome, captured: Result<string, Throwable>): (run: FilterRun)
    ensures |run.trace| == if chain.Threw? then 3 else 2
    ensures run.trace[0] == ChainInvoked(request, response)
    ensures chain.Threw? ==> run.trace[1] == ChainFailureLogged(chain.error)
    ensures forall i | 0 <= i < |run.trace| :: run.trace[i].ChainFailureLogged? ==> chain.Threw?
    ensures forall i | 1 <= i < |run.trace| :: !run.trace[i].ChainInvoked?
    ensures run.trace[|run.trace| - 1] == DoLog(logResponse, info, start, end, captured)
    ensures forall i | 0 <= i < |run.trace| - 1 :: !IsLogStep(run.trace[i])
    ensures chain.Returned? ==> run.outcome == Completed
    ensures chain.Threw? ==> run.outcome == Rethrown(chain.error)
  {
    var failure := if chain.Threw? then [ChainFailureLogged(chain.error)] else [];
    var trace := [ChainInvoked(request, response)] + failure + [DoLog(logResponse, info, start, end, captured)];
    FilterRun(trace, if chain.Threw? then Rethrown(chain.error) else Completed)
  }

  /** Everything `doFilter` takes from outside the filter: the URL encoder,
      the regular-expression matcher, the two clock readings, what the chain
      does, and what the response wrapper returns as the content. */
  datatype Environment = Environment(
    enc: Encoder,
    matcher: Matcher,
    start: Long,
    end: Long,
    chain: ChainOutcome,
    captured: Result<string, Throwable>)

  predicate IsJson(contentType: Option<string>)
  {
    StartsWith(contentType, APPLICATION_JSON)
  }

  predicate IsMultipart(contentType: Option<string>)
  {
    StartsWith(contentType, MULTIPART_FORM_DATA)
  }

  /** The part of the snapshot that depends on the content type: the JSON
      body without line terminators plus a separator, the multipart marker,
      or nothing. */
  function BodySection(request: HttpRequest): string
  {
    if IsJson(request.contentType) then StripTerminators(Decode(request.body.data)) + SEP
    else if IsMultipart(request.contentType) then MULTIPART_MARKER
    else ""
  }

  /** The filter gets as far as calling the chain: it has a configuration,
      and a JSON body can be buffered. */
  predicate Proceeds(state: FilterState, request: HttpRequest)
  {
    state.config.Some? && (IsJson(request.contentType) ==> Drainable(request.body))
  }

  /** `doFilter`. */
  method DoFilter(state: FilterState, request: HttpRequest, env: Environment) returns (run: FilterRun)
    ensures state.config.None? ==> run == FilterRun([], Aborted(NullPointerException))
    ensures state.config.Some? && IsJson(request.contentType) && !Drainable(request.body) ==>
      run == FilterRun([], Aborted(IOException))
    ensures Proceeds(state, request) ==>
      && |run.trace| == (if env.chain.Threw? then 3 else 2)
      && run.trace[0].ChainInvoked?
      && (env.chain.Threw? ==> run.trace[1] == ChainFailureLogged(env.chain.error))
      && (forall i | 1 <= i < |run.trace| :: !run.trace[i].ChainInvoked?)
      && IsLogStep(run.trace[|run.trace| - 1])
      && (forall i | 0 <= i < |run.trace| - 1 :: !IsLogStep(run.trace[i]))
    ensures Proceeds(state, request) ==> run.trace[0].response == WrappedResponse
    ensures Proceeds(state, request) ==>
      (run.trace[0].request.BufferedRequest? <==> IsJson(request.contentType))
    ensures Proceeds(state, request) && run.trace[0].request.BufferedRequest? ==>
      run.trace[0].request.wrapper.body == request.body.data
    ensures Proceeds(state, request) ==>
      (run.outcome.Rethrown? <==> env.chain.Threw?)
      && (env.chain.Threw? ==> run.outcome.error == env.chain.error)
      && (env.chain.Returned? ==> run.outcome == Completed)
    ensures Proceeds(state, request) && env.captured.Success? ==>
      run.trace[|run.trace| - 1]
      == RecordLogged(LogRecord(BaseInfo(request, env.enc) + BodySection(request), env.start, env.end,
                                LongSub(env.end, env.start), Some(env.captured.value)))
    ensures Proceeds(state, request) && env.captured.Failure? ==>
      run.trace[|run.trace| - 1] == ResponseContentFailureLogged(env.captured.error)
  {
    var logResponse := LogResponse(state, request, env.matcher);
    if logResponse.Failure? {
      return FilterRun([], Aborted(logResponse.error));
    }
    var response := if logResponse.value then WrappedResponse else OriginalResponse;
    var info := CollectBaseInfo(request, env.enc);
    if IsJson(request.contentType) {
      var wrapper := Capture(request.body);
      if wrapper.Failure? {
        return FilterRun([], Aborted(wrapper.error));
      }
      var body := CollectJsonParam(wrapper.value);
      info := info + body;
      run := FilterAndLog(BufferedRequest(wrapper.value), response, info, env.start, env.end,
                          logResponse.value, env.chain, env.captured);
      return;
    }
    if IsMultipart(request.contentType) {
      info := info + MULTIPART_MARKER;
    }
    run := FilterAndLog(OriginalRequest, response, info, env.start, env.end,
                        logResponse.value, env.chain, env.captured);
  }
}
