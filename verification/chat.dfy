/** The request handler of controller/chat.go: validation of the decoded
    request, the reading of one upstream event stream, the fixed-order
    classification of terminal upstream signals, and the failover loop over
    the eligible cookies. gin's output is not modelled byte for byte: each
    way a request can end is a value of `Outcome`, and the text deltas are
    kept per attempt. */
module Chat {
  import opened Wrappers
  import opened Str
  import opened Messages
  import opened Registry
  import opened Sse
  import opened Pool
  import opened Upstream
  import opened Utils
  import opened ChatBody
  import opened Seqs

  // ---------------------------------------------------------------------
  // Validation (ChatForOpenAI)

  /** The `error` object of an OpenAI error response, with its HTTP status. */
  datatype ApiError = ApiError(status: int, message: string, errorType: string, code: string)

  /** The answer to a body BindJSON cannot decode. BindJSON has already
      aborted with 400 and written that status, so the later JSON answer
      with status 500 only adds this body: the client sees 400, with the
      code "500" inside the body. */
  const InvalidParameters: ApiError := ApiError(400, "Invalid request parameters", "request_error", "500")

  function UnknownModel(model: string): ApiError {
    ApiError(400, "Model " + model + " not supported", "invalid_request_error", "invalid_model")
  }

  function TooManyTokens(maxTokens: int, limit: int): ApiError {
    ApiError(400, "Max tokens " + IntToString(maxTokens) + " exceeds limit " + IntToString(limit),
             "invalid_request_error", "invalid_max_tokens")
  }

  /** ChatForOpenAI up to the choice of handler. `bound` is what BindJSON
      decoded, None when it failed. Empty-content messages are dropped
      before the model is looked up. */
  function Validate(bound: Option<Request>): (r: Result<(Request, ModelInfo), ApiError>)
    ensures bound.None? ==> r == Err(InvalidParameters)
    ensures bound.None? ==> r.error.status == 400 && r.error.code == "500"
    ensures r.Ok? ==> r.value.0.messages == RemoveEmptyContentMessages(bound.value.messages)
  {
    match bound
    case None => Err(InvalidParameters)
    case Some(req) =>
      var req' := req.(messages := RemoveEmptyContentMessages(req.messages));
      var (info, known) := GetModelInfo(req'.model);
      if !known then Err(UnknownModel(req'.model))
      else if req'.maxTokens > info.maxTokens then Err(TooManyTokens(req'.maxTokens, info.maxTokens))
      else Ok((req', info))
  }

  /** A decoded request is accepted exactly when its model is registered
      and its max_tokens is within the registry's limit; the model check
      comes first. */
  lemma ValidateSpec(req: Request)
    ensures var r := Validate(Some(req));
            && (r.Ok? <==> req.model in PublicNames && req.maxTokens <= DefaultMaxTokens)
            && (req.model !in PublicNames ==> r == Err(UnknownModel(req.model)))
            && (req.model in PublicNames && req.maxTokens > DefaultMaxTokens ==>
                  r == Err(TooManyTokens(req.maxTokens, DefaultMaxTokens)))
            && (r.Ok? ==> r.value.1.model == UpstreamName(req.model)
                          && r.value.0 == req.(messages := RemoveEmptyContentMessages(req.messages)))
  {
  }

  // ---------------------------------------------------------------------
  // Terminal signals

  /** What a terminal upstream payload (a done event whose data is not
      "[DONE]") is taken to mean. */
  datatype Signal = UsageLimit | ChineseRefused | NotLoggedIn | RateLimited | Unrecognised

  /** The switch of both handlers: the first classifier that accepts wins. */
  function Classify(data: string): (s: Signal)
  {
    if IsUsageLimitExceeded(data) then UsageLimit
    else if IsChineseChat(data) then ChineseRefused
    else if IsNotLogin(data) then NotLoggedIn
    else if IsRateLimit(data) then RateLimited
    else Unrecognised
  }

  /** The signals after which the handler moves on to the next cookie. */
  predicate Retryable(s: Signal) {
    s.UsageLimit? || s.NotLoggedIn? || s.RateLimited?
  }

  type RetrySignal = s: Signal | Retryable(s) witness UsageLimit

  /** The usage-limit and Chinese-refusal verdicts do not depend on the
      order of the tests: each is exactly its own classifier. A payload
      that is a usage-limit notice is never retried as anything else, even
      when it also carries the invalid-token text. */
  lemma ClassifyExact(data: string)
    ensures Classify(data) == UsageLimit <==> IsUsageLimitExceeded(data)
    ensures Classify(data) == ChineseRefused <==> IsChineseChat(data)
    ensures Classify(data) == Unrecognised <==>
              !IsUsageLimitExceeded(data) && !IsChineseChat(data) && !IsNotLogin(data) && !IsRateLimit(data)
    ensures Retryable(Classify(data)) ==> IsUsageLimitExceeded(data) || IsNotLogin(data) || IsRateLimit(data)
    ensures !IsChineseChat(data) && (IsUsageLimitExceeded(data) || IsNotLogin(data) || IsRateLimit(data)) ==>
              Retryable(Classify(data))
  {
    ExactClassifiersDisjoint(data);
  }

  /** Order matters where the classifiers overlap: every usage-limit
      notice is classified as a usage limit, and the overlap is real, as a
      usage-limit notice that also contains the invalid-token body shows;
      such a payload removes the cookie rather than merely retrying. */
  lemma UsageLimitBeforeNotLogin(data: string)
    ensures IsUsageLimitExceeded(data) ==> Classify(data) == UsageLimit
    ensures var both := UsageLimitPrefix + InvalidTokenBody;
            IsUsageLimitExceeded(both) && IsNotLogin(both) && Classify(both) == UsageLimit
  {
    UsageLimitIsPrefixTest(InvalidTokenBody);
    NotLoginIsSubstringTest(UsageLimitPrefix, "");
    assert UsageLimitPrefix + InvalidTokenBody + "" == UsageLimitPrefix + InvalidTokenBody;
  }

  // ---------------------------------------------------------------------
  // One event's data (processNoStreamData / processStreamData)

  /** json.Unmarshal into a map: an error message, None for the literal
      `null` (a nil map), or the members of an object in source order. */
  type Decode = string -> Result<Option<seq<(string, Json)>>, string>

  /** A map lookup on decoded members: the last duplicate wins. */
  function Lookup(fields: seq<(string, Json)>, key: string): (r: Option<Json>)
    ensures r.None? <==> forall i :: 0 <= i < |fields| ==> fields[i].0 != key
    ensures r.Some? ==> exists i :: 0 <= i < |fields| && fields[i] == (key, r.value)
                          && forall j :: i < j < |fields| ==> fields[j].0 != key
  {
    if |fields| == 0 then None
    else if fields[|fields| - 1].0 == key then Some(fields[|fields| - 1].1)
    else
      var r := Lookup(fields[..|fields| - 1], key);
      assert forall i :: 0 <= i < |fields| - 1 ==> fields[..|fields| - 1][i] == fields[i];
      r
  }

  /** What one data payload asks of the reading loop. */
  datatype Step =
    | Stop                 // the stream is over
    | Skip                 // nothing to add; read on
    | Text(text: string)   // a delta; read on
    | Broken(err: string)  // the payload did not decode: a 500 with the decoder's message, then stop

  /** The text a decoded event carries, if it is a text event. */
  function EventStep(event: Option<seq<(string, Json)>>): Step {
    match event
    case None => Stop
    case Some(fields) =>
      match Lookup(fields, "type")
      case None => Stop
      case Some(t) =>
        if t != JStr("text") then Skip
        else match Lookup(fields, "data")
          case Some(JObj(inner)) =>
            (match Lookup(inner, "content")
             case Some(JStr(c)) => Text(c)
             case _ => Skip)
          case _ => Stop
  }

  /** The payload the handlers look at: trimmed, then without a leading
      "data: ". */
  function EventPayload(data: string): string {
    TrimPrefix(TrimSpace(data), "data: ")
  }

  function ProcessData(data: string, decode: Decode): (r: Step)
    ensures EventPayload(data) == DoneToken ==> r == Stop
  {
    var p := EventPayload(data);
    if p == DoneToken then Stop
    else match decode(p)
      case Err(e) => Broken(e)
      case Ok(event) => EventStep(event)
  }

  /** The text event rule: a "text" event whose `data` is an object yields
      its string `content`, or nothing when the content is not a string;
      any other type yields nothing; a missing type or a non-object `data`
      ends the stream. */
  lemma EventStepCases(fields: seq<(string, Json)>)
    ensures Lookup(fields, "type").None? ==> EventStep(Some(fields)) == Stop
    ensures Lookup(fields, "type").Some? && Lookup(fields, "type") != Some(JStr("text")) ==>
              EventStep(Some(fields)) == Skip
    ensures Lookup(fields, "type") == Some(JStr("text")) ==>
              match Lookup(fields, "data")
              case Some(JObj(inner)) =>
                (Lookup(inner, "content").Some? && Lookup(inner, "content").value.JStr? ==>
                   EventStep(Some(fields)) == Text(Lookup(inner, "content").value.s))
                && (!(Lookup(inner, "content").Some? && Lookup(inner, "content").value.JStr?) ==>
                   EventStep(Some(fields)) == Skip)
              case _ => EventStep(Some(fields)) == Stop
    ensures EventStep(None) == Stop
  {
  }

  /** `sub_type` never changes the text: adding it to an event (it is read
      and then ignored) leaves the step as it was. */
  lemma SubTypeIgnored(fields: seq<(string, Json)>, v: Json)
    ensures EventStep(Some(fields + [("sub_type", v)])) == EventStep(Some(fields))
  {
    var f := fields + [("sub_type", v)];
    assert f[..|f| - 1] == fields;
  }

  /** The terminal "[DONE]" payload ends the stream with or without its
      "data: " prefix, whatever the decoder would have made of it. */
  lemma DoneStops(decode: Decode)
    ensures ProcessData(DoneToken, decode) == Stop
    ensures ProcessData("data: " + DoneToken, decode) == Stop
  {
    assert EventPayload(DoneToken) == DoneToken by {
      assert TrimLeft(DoneToken) == DoneToken;
      assert TrimRight(DoneToken) == DoneToken;
      assert !HasPrefix(DoneToken, "data: ") by { assert DoneToken[0] != "data: "[0]; }
    }
    var s := "data: " + DoneToken;
    assert EventPayload(s) == DoneToken by {
      assert TrimLeft(s) == s;
      assert TrimRight(s) == s;
      assert HasPrefix(s, "data: ") by { assert s[..6] == "data: "; }
    }
  }

  // ---------------------------------------------------------------------
  // One attempt: the loop over the event channel

  /** How the reading of one event sequence ended. */
  datatype End =
    | Drained                              // the channel closed without an ending event
    | Signalled(signal: Signal, data: string) // a done event whose data is not "[DONE]"
    | Forbidden                            // streaming only: an event with status 403
    | Finished                             // a Stop step: the answer (or the final chunk) is written
    | Failed(err: string)                  // a Broken step

  /** The loop of handleNonStreamRequest (`stream` false) and of the
      c.Stream step (`stream` true) over one event sequence: the text
      deltas in order, and how it ended. */
  function RunAttempt(evs: seq<SseEvent>, decode: Decode, stream: bool): (r: (seq<string>, End))
    decreases |evs|
  {
    if |evs| == 0 then ([], Drained)
    else
      var e := evs[0];
      if stream && e.status == 403 then ([], Forbidden)
      else if e.data == "" then RunAttempt(evs[1..], decode, stream)
      else if e.done && e.data != DoneToken then ([], Signalled(Classify(e.data), e.data))
      else match ProcessData(e.data, decode)
        case Stop => ([], Finished)
        case Broken(err) => ([], Failed(err))
        case Skip => RunAttempt(evs[1..], decode, stream)
        case Text(t) =>
          var rest := RunAttempt(evs[1..], decode, stream);
          ([t] + rest.0, rest.1)
  }

  /** Reference definition: an event that ends the loop. */
  predicate Ends(e: SseEvent, decode: Decode, stream: bool) {
    || (stream && e.status == 403)
    || (e.data != "" && ((e.done && e.data != DoneToken) || ProcessData(e.data, decode).Stop?
                         || ProcessData(e.data, decode).Broken?))
  }

  /** How an ending event ends the loop. */
  function EndOf(e: SseEvent, decode: Decode, stream: bool): End {
    if stream && e.status == 403 then Forbidden
    else if e.done && e.data != DoneToken then Signalled(Classify(e.data), e.data)
    else match ProcessData(e.data, decode)
      case Broken(err) => Failed(err)
      case _ => Finished
  }

  /** The delta one non-ending event contributes. */
  function DeltaOf(e: SseEvent, decode: Decode): seq<string> {
    if e.data == "" then []
    else match ProcessData(e.data, decode)
      case Text(t) => [t]
      case _ => []
  }

  function Deltas(evs: seq<SseEvent>, decode: Decode): seq<string> {
    if |evs| == 0 then [] else DeltaOf(evs[0], decode) + Deltas(evs[1..], decode)
  }

  /** Index of the first ending event, |evs| when there is none. */
  function FirstEnding(evs: seq<SseEvent>, decode: Decode, stream: bool): (k: nat)
    ensures k <= |evs|
    ensures forall i :: 0 <= i < k ==> !Ends(evs[i], decode, stream)
    ensures k < |evs| ==> Ends(evs[k], decode, stream)
    decreases |evs|
  {
    if |evs| == 0 then 0
    else if Ends(evs[0], decode, stream) then 0
    else
      var k := FirstEnding(evs[1..], decode, stream);
      assert forall i :: 1 <= i < k + 1 ==> evs[i] == evs[1..][i - 1];
      k + 1
  }

  /** A non-ending event adds its delta and leaves the rest to the tail. */
  lemma RunAttemptPasses(evs: seq<SseEvent>, decode: Decode, stream: bool)
    requires |evs| > 0 && !Ends(evs[0], decode, stream)
    ensures var r := RunAttempt(evs, decode, stream);
            var t := RunAttempt(evs[1..], decode, stream);
            r == (DeltaOf(evs[0], decode) + t.0, t.1)
  {
    var e := evs[0];
    if e.data != "" {
      match ProcessData(e.data, decode)
      case Text(x) =>
      case Skip =>
        assert RunAttempt(evs, decode, stream) == RunAttempt(evs[1..], decode, stream);
        assert DeltaOf(e, decode) + RunAttempt(evs[1..], decode, stream).0 == RunAttempt(evs[1..], decode, stream).0;
      case Stop =>
      case Broken(_) =>
    } else {
      assert RunAttempt(evs, decode, stream) == RunAttempt(evs[1..], decode, stream);
      assert DeltaOf(e, decode) + RunAttempt(evs[1..], decode, stream).0 == RunAttempt(evs[1..], decode, stream).0;
    }
  }

  /** An ending event ends the loop with no further delta. */
  lemma RunAttemptStops(evs: seq<SseEvent>, decode: Decode, stream: bool)
    requires |evs| > 0 && Ends(evs[0], decode, stream)
    ensures RunAttempt(evs, decode, stream) == ([], EndOf(evs[0], decode, stream))
  {
  }

  /** The deltas of a prefix that starts with `evs[0]`. */
  lemma DeltasCons(evs: seq<SseEvent>, k: nat, decode: Decode)
    requires 0 < k <= |evs|
    ensures Deltas(evs[..k], decode) == DeltaOf(evs[0], decode) + Deltas(evs[1..][..k - 1], decode)
  {
    assert evs[..k][1..] == evs[1..][..k - 1];
    assert evs[..k][0] == evs[0];
  }

  /** The answer is the in-order concatenation of the deltas of all events
      before the first ending event; the loop drains the channel exactly
      when no event ends it, and otherwise ends as that event says. */
  lemma {:induction false} AttemptAggregates(evs: seq<SseEvent>, decode: Decode, stream: bool)
    ensures var r := RunAttempt(evs, decode, stream);
            var k := FirstEnding(evs, decode, stream);
            && r.0 == Deltas(evs[..k], decode)
            && (r.1.Drained? <==> k == |evs|)
            && (k < |evs| ==> r.1 == EndOf(evs[k], decode, stream))
    decreases |evs|
  {
    if |evs| > 0 {
      if Ends(evs[0], decode, stream) {
        RunAttemptStops(evs, decode, stream);
      } else {
        AttemptAggregates(evs[1..], decode, stream);
        RunAttemptPasses(evs, decode, stream);
        var k := FirstEnding(evs, decode, stream);
        assert k == FirstEnding(evs[1..], decode, stream) + 1;
        DeltasCons(evs, k, decode);
      }
    }
  }

  /** What the transport delivers (exactly one done event, last, and no
      empty data) always ends the loop: a drained channel, after which
      the streaming step would ask gin to call it again, cannot happen. */
  lemma NeverDrained(evs: seq<SseEvent>, decode: Decode, stream: bool)
    requires WellTerminated(evs)
    requires forall i :: 0 <= i < |evs| ==> evs[i].data != ""
    ensures !RunAttempt(evs, decode, stream).1.Drained?
  {
    var last := evs[|evs| - 1];
    DoneStops(decode);
    assert Ends(last, decode, stream);
    AttemptAggregates(evs, decode, stream);
  }

  // ---------------------------------------------------------------------
  // The failover loop

  /** The global state a request reads and changes: the cookie pool, the
      lockout map and the token map. */
  datatype World = World(qd: seq<string>, locks: Lockouts, tokens: map<string, TokenInfo>)

  const ChineseMessage: string :=
    "Detected that you are using Chinese for conversation, please use English for conversation."
  const MarshalFailure: string := "Failed to marshal request body"
  const AllUnavailable: string := "All cookies are temporarily unavailable."

  /** An attempt that ends before any event is read: 500 with MarshalFailure,
      or 500 with the error of MakeStreamChatRequest or GetNextCookie. */
  datatype Failure = MarshalFailed | RequestFailed(err: string)

  /** One attempt up to the end of its event loop: either it failed before
      reading, or the deltas it read and how its loop ended. */
  datatype Reading = NotSent(failure: Failure) | Read(texts: seq<string>, end: End)

  /** An attempt as the loop sees it: from the cookie, the attempt number,
      the world and the request, the request as the attempt left it and
      what it read. */
  type Attempt = (string, nat, World, Request) -> (Request, Reading)

  /** How a request ends after validation. */
  datatype Outcome =
    | NoCookies            // 500 {"error": "no cookies available"}, before any attempt
    | Aborted(failure: Failure)
    | Exhausted            // 500 AllUnavailable
    | Ended(end: End)      // the last attempt's own ending

  /** The cookies tried in order, the deltas each attempt read, the retry
      signal of each retried attempt, the world afterwards and the request
      as the in-place changes left it. */
  datatype Run = Run(outcome: Outcome, tried: seq<string>, deltas: seq<seq<string>>,
                     retried: seq<RetrySignal>, world: World, req: Request)

  /** What a retry signal does to the world: a usage-limit notice removes
      the cookie from the pool, a rate limit locks it until `expiry`, an
      invalid token changes nothing. */
  function AfterSignal(w: World, s: Signal, cookie: string, expiry: int): (r: World)
    ensures r.tokens == w.tokens
  {
    match s
    case UsageLimit => w.(qd := RemoveCookie(w.qd, cookie))
    case RateLimited => w.(locks := AddRateLimitCookie(w.locks, cookie, expiry))
    case _ => w
  }

  /** The loop of both handlers from attempt `attempt` (of `n`) on, with
      `cookie` picked from the snapshot `m` for this one; `expiry(k)` is the
      lockout a rate limit on attempt k sets, taken from the clock when
      that attempt's notice arrives. */
  function Failover(m: Manager, cookie: string, attempt: nat, n: nat, w: World, req: Request,
                    expiry: nat -> int, try: Attempt): (r: Run)
    ensures !r.outcome.NoCookies?
    ensures |r.deltas| == |r.tried|
    ensures attempt <= n ==> |r.tried| <= n - attempt
    ensures |r.retried| <= |r.tried|
    ensures r.outcome.Exhausted? ==> |r.retried| == |r.tried|
    ensures r.outcome.Ended? ==> |r.retried| + 1 == |r.tried|
    ensures r.world.tokens == w.tokens
    decreases n - attempt
  {
    if attempt >= n then Run(Exhausted, [], [], [], w, req)
    else
      var (req', reading) := try(cookie, attempt, w, req);
      match reading
      case NotSent(f) => Run(Aborted(f), [cookie], [[]], [], w, req')
      case Read(texts, end) =>
        if end.Signalled? && Retryable(end.signal) then
          var w' := AfterSignal(w, end.signal, cookie, expiry(attempt));
          match GetNextCookie(m)
          case Err(e) => Run(Aborted(RequestFailed(e)), [cookie], [texts], [end.signal], w', req')
          case Ok((next, m')) =>
            var rest := Failover(m', next, attempt + 1, n, w', req', expiry, try);
            rest.(tried := [cookie] + rest.tried, deltas := [texts] + rest.deltas,
                  retried := [end.signal] + rest.retried)
        else Run(Ended(end), [cookie], [texts], [], w, req')
  }

  /** A retried attempt: the loop's result is the rest of the loop, after
      the signal's effect and the next pick, with this attempt in front. */
  lemma FailoverStep(m: Manager, cookie: string, attempt: nat, n: nat, w: World,
                     req: Request, expiry: nat -> int, try: Attempt)
    requires attempt < n && |m.cookies| > 0
    requires var reading := try(cookie, attempt, w, req).1;
             reading.Read? && reading.end.Signalled? && Retryable(reading.end.signal)
    ensures var (req', reading) := try(cookie, attempt, w, req);
            var s := reading.end.signal;
            var (next, m') := GetNextCookie(m).value;
            var rest := Failover(m', next, attempt + 1, n, AfterSignal(w, s, cookie, expiry(attempt)), req', expiry, try);
            Failover(m, cookie, attempt, n, w, req, expiry, try)
              == rest.(tried := [cookie] + rest.tried, deltas := [reading.texts] + rest.deltas,
                       retried := [s] + rest.retried)
  {
  }

  /** The i-th cookie tried is the snapshot entry the i-th pick visits:
      the first pick's entry, then one step on (cyclically) per retry. */
  lemma {:induction false} FailoverRoundRobin(m: Manager, cookie: string, attempt: nat, n: nat, w: World,
                                              req: Request, expiry: nat -> int, try: Attempt)
    requires 0 < |m.cookies| && m.currentIndex < |m.cookies| && cookie == m.cookies[m.currentIndex]
    ensures var r := Failover(m, cookie, attempt, n, w, req, expiry, try);
            forall i :: 0 <= i < |r.tried| ==> r.tried[i] == m.cookies[Visit(m, i)]
    decreases n - attempt
  {
    var r := Failover(m, cookie, attempt, n, w, req, expiry, try);
    if attempt < n {
      var (req', reading) := try(cookie, attempt, w, req);
      if reading.Read? && reading.end.Signalled? && Retryable(reading.end.signal) {
        var w' := AfterSignal(w, reading.end.signal, cookie, expiry(attempt));
        var (next, m') := GetNextCookie(m).value;
        FailoverRoundRobin(m', next, attempt + 1, n, w', req', expiry, try);
        var rest := Failover(m', next, attempt + 1, n, w', req', expiry, try);
        assert r.tried == [cookie] + rest.tried;
        forall i | 1 <= i < |r.tried|
          ensures r.tried[i] == m.cookies[Visit(m, i)]
        {
          assert Visit(m, i) == Visit(m', i - 1);
        }
      }
    }
  }

  /** Running out of attempts means every remaining attempt was made and
      every one of them asked for a retry. */
  lemma {:induction false} FailoverExhausted(m: Manager, cookie: string, attempt: nat, n: nat, w: World,
                                             req: Request, expiry: nat -> int, try: Attempt)
    requires attempt <= n && |m.cookies| > 0
    ensures var r := Failover(m, cookie, attempt, n, w, req, expiry, try);
            r.outcome.Exhausted? <==> |r.tried| == n - attempt && |r.retried| == |r.tried|
    decreases n - attempt
  {
    if attempt < n {
      var (req', reading) := try(cookie, attempt, w, req);
      if reading.Read? && reading.end.Signalled? && Retryable(reading.end.signal) && |m.cookies| > 0 {
        var w' := AfterSignal(w, reading.end.signal, cookie, expiry(attempt));
        var (next, m') := GetNextCookie(m).value;
        FailoverExhausted(m', next, attempt + 1, n, w', req', expiry, try);
      }
    }
  }

  /** Removal is permanent: a cookie retried after a usage-limit notice
      is gone from the pool when the loop ends. */
  lemma {:induction false} FailoverRemoves(m: Manager, cookie: string, attempt: nat, n: nat, w: World,
                                           req: Request, expiry: nat -> int, try: Attempt)
    ensures var r := Failover(m, cookie, attempt, n, w, req, expiry, try);
            forall i :: 0 <= i < |r.retried| && r.retried[i] == UsageLimit ==> r.tried[i] !in r.world.qd
    decreases n - attempt
  {
    if attempt < n {
      var (req', reading) := try(cookie, attempt, w, req);
      if reading.Read? && reading.end.Signalled? && Retryable(reading.end.signal) {
        var s := reading.end.signal;
        var w' := AfterSignal(w, s, cookie, expiry(attempt));
        if s == UsageLimit {
          RemoveCookieSpec(w.qd, cookie);
        }
        if |m.cookies| > 0 {
          var (next, m') := GetNextCookie(m).value;
          FailoverStep(m, cookie, attempt, n, w, req, expiry, try);
          FailoverRemoves(m', next, attempt + 1, n, w', req', expiry, try);
          if s == UsageLimit {
            RemovedStaysRemoved(m', next, attempt + 1, n, w', req', expiry, try, cookie);
          }
        }
      }
    }
  }

  /** Without a usage-limit notice the pool is left as it was. */
  lemma {:induction false} FailoverKeepsPool(m: Manager, cookie: string, attempt: nat, n: nat, w: World,
                                             req: Request, expiry: nat -> int, try: Attempt)
    ensures var r := Failover(m, cookie, attempt, n, w, req, expiry, try);
            UsageLimit !in r.retried ==> r.world.qd == w.qd
    decreases n - attempt
  {
    if attempt < n {
      var (req', reading) := try(cookie, attempt, w, req);
      if reading.Read? && reading.end.Signalled? && Retryable(reading.end.signal) {
        var s := reading.end.signal;
        var w' := AfterSignal(w, s, cookie, expiry(attempt));
        if |m.cookies| > 0 {
          var (next, m') := GetNextCookie(m).value;
          FailoverStep(m, cookie, attempt, n, w, req, expiry, try);
          FailoverKeepsPool(m', next, attempt + 1, n, w', req', expiry, try);
          var r := Failover(m, cookie, attempt, n, w, req, expiry, try);
          var rest := Failover(m', next, attempt + 1, n, w', req', expiry, try);
          assert r.retried == [s] + rest.retried && r.world == rest.world;
          if UsageLimit !in r.retried {
            assert w'.qd == w.qd;
          }
        }
      }
    }
  }

  /** Among the first |retried| attempts, the last one rate-limited on
      cookie `c`, or -1 when there is none. */
  function LastLockOf(tried: seq<string>, retried: seq<RetrySignal>, c: string): (j: int)
    requires |retried| <= |tried|
    ensures -1 <= j < |retried|
    ensures j >= 0 ==> retried[j] == RateLimited && tried[j] == c
    ensures forall k :: j < k < |retried| && retried[k] == RateLimited ==> tried[k] != c
    decreases |retried|
  {
    if |retried| == 0 then -1
    else
      var later := LastLockOf(tried[1..], retried[1..], c);
      if later >= 0 then later + 1
      else if retried[0] == RateLimited && tried[0] == c then 0
      else -1
  }

  /** The last rate-limited attempt of `c` after one more attempt in front. */
  lemma LastLockCons(tried: seq<string>, retried: seq<RetrySignal>, cookie: string, s: RetrySignal, c: string)
    requires |retried| <= |tried|
    ensures var later := LastLockOf(tried, retried, c);
            LastLockOf([cookie] + tried, [s] + retried, c)
              == if later >= 0 then later + 1 else if s == RateLimited && cookie == c then 0 else -1
  {
    assert ([cookie] + tried)[1..] == tried && ([s] + retried)[1..] == retried;
  }

  /** The cookie of the i-th attempt of `r` (numbered from `attempt`),
      when that attempt was retried after a rate limit, is locked until the
      expiry of its last rate-limited attempt. */
  ghost predicate LockedFromLast(r: Run, expiry: nat -> int, attempt: nat, i: nat) {
    |r.retried| <= |r.tried| && i < |r.retried| && r.retried[i] == RateLimited ==>
      var j := LastLockOf(r.tried, r.retried, r.tried[i]);
      && i <= j
      && r.tried[i] in r.world.locks && r.world.locks[r.tried[i]] == expiry(attempt + j)
  }

  /** The cookie of the i-th attempt, retried after a rate limit, ends
      locked until the expiry of its last rate-limited attempt: a later
      lockout of the same cookie overwrites an earlier one. */
  lemma {:induction false} FailoverLocks(m: Manager, cookie: string, attempt: nat, n: nat, w: World,
                                         req: Request, expiry: nat -> int, try: Attempt, i: nat)
    ensures LockedFromLast(Failover(m, cookie, attempt, n, w, req, expiry, try), expiry, attempt, i)
    decreases n - attempt
  {
    if attempt < n {
      var (req', reading) := try(cookie, attempt, w, req);
      if reading.Read? && reading.end.Signalled? && Retryable(reading.end.signal) {
        var s := reading.end.signal;
        var w' := AfterSignal(w, s, cookie, expiry(attempt));
        if |m.cookies| > 0 {
          var (next, m') := GetNextCookie(m).value;
          FailoverStep(m, cookie, attempt, n, w, req, expiry, try);
          var r := Failover(m, cookie, attempt, n, w, req, expiry, try);
          var rest := Failover(m', next, attempt + 1, n, w', req', expiry, try);
          if i < |r.retried| && r.retried[i] == RateLimited {
            FailoverLocksStep(rest, r, cookie, s, expiry, attempt, i);
            var c := r.tried[i];
            var later := LastLockOf(rest.tried, rest.retried, c);
            var k := if i > 0 then i - 1 else if later >= 0 then later else 0;
            if later >= 0 {
              FailoverLocks(m', next, attempt + 1, n, w', req', expiry, try, k);
            } else {
              LockStaysSet(m', next, attempt + 1, n, w', req', expiry, try, cookie);
            }
            LockedFromLastCons(rest, r, cookie, s, expiry, attempt, i, k);
          }
        } else {
          var r := Failover(m, cookie, attempt, n, w, req, expiry, try);
          assert r.tried == [cookie] && r.retried == [s] && r.world == w';
          LastLockCons([], [], cookie, s, cookie);
          assert LockedFromLast(r, expiry, attempt, i);
        }
      } else {
        assert Failover(m, cookie, attempt, n, w, req, expiry, try).retried == [];
      }
    } else {
      assert Failover(m, cookie, attempt, n, w, req, expiry, try).retried == [];
    }
  }

  /** One retried attempt in front of `rest` keeps `LockedFromLast` for
      the i-th attempt of `r`, given the fact about `rest` at the position
      k of that cookie's last rate limit there, or, when `rest` has none,
      the lock this attempt left. */
  lemma LockedFromLastCons(rest: Run, r: Run, cookie: string, s: RetrySignal, expiry: nat -> int,
                           attempt: nat, i: nat, k: nat)
    requires |rest.retried| <= |rest.tried|
    requires r.tried == [cookie] + rest.tried && r.retried == [s] + rest.retried && r.world == rest.world
    requires i < |r.retried| && r.retried[i] == RateLimited
    requires LastLockOf(rest.tried, rest.retried, r.tried[i]) >= 0 ==>
               && k < |rest.retried| && rest.tried[k] == r.tried[i] && rest.retried[k] == RateLimited
               && LockedFromLast(rest, expiry, attempt + 1, k)
    requires LastLockOf(rest.tried, rest.retried, r.tried[i]) < 0 ==>
               r.tried[i] in rest.world.locks && rest.world.locks[r.tried[i]] == expiry(attempt)
    ensures LockedFromLast(r, expiry, attempt, i)
  {
    LastLockCons(rest.tried, rest.retried, cookie, s, r.tried[i]);
  }

  /** The index bookkeeping of one step of `FailoverLocks`: where the i-th
      retried attempt of `r` sits in `rest`, and which fact about `rest`
      gives its lock. */
  lemma FailoverLocksStep(rest: Run, r: Run, cookie: string, s: RetrySignal, expiry: nat -> int,
                          attempt: nat, i: nat)
    requires |rest.retried| <= |rest.tried|
    requires r.tried == [cookie] + rest.tried && r.retried == [s] + rest.retried && r.world == rest.world
    requires i < |r.retried| && r.retried[i] == RateLimited
    ensures var c := r.tried[i];
            var later := LastLockOf(rest.tried, rest.retried, c);
            && LastLockOf(r.tried, r.retried, c) == (if later >= 0 then later + 1 else 0)
            && (i > 0 ==> rest.tried[i - 1] == c && rest.retried[i - 1] == RateLimited && i - 1 <= later)
            && (i == 0 && later >= 0 ==> rest.tried[later] == c && rest.retried[later] == RateLimited)
            && (i == 0 ==> c == cookie && s == RateLimited)
  {
    LastLockCons(rest.tried, rest.retried, cookie, s, r.tried[i]);
  }

  /** Without a rate limit the lockout map is left as it was. */
  lemma {:induction false} FailoverKeepsLocks(m: Manager, cookie: string, attempt: nat, n: nat, w: World,
                                              req: Request, expiry: nat -> int, try: Attempt)
    ensures var r := Failover(m, cookie, attempt, n, w, req, expiry, try);
            RateLimited !in r.retried ==> r.world.locks == w.locks
    decreases n - attempt
  {
    if attempt < n {
      var (req', reading) := try(cookie, attempt, w, req);
      if reading.Read? && reading.end.Signalled? && Retryable(reading.end.signal) {
        var s := reading.end.signal;
        var w' := AfterSignal(w, s, cookie, expiry(attempt));
        if |m.cookies| > 0 {
          var (next, m') := GetNextCookie(m).value;
          FailoverStep(m, cookie, attempt, n, w, req, expiry, try);
          FailoverKeepsLocks(m', next, attempt + 1, n, w', req', expiry, try);
          var r := Failover(m, cookie, attempt, n, w, req, expiry, try);
          var rest := Failover(m', next, attempt + 1, n, w', req', expiry, try);
          assert r.retried == [s] + rest.retried && r.world == rest.world;
          if RateLimited !in r.retried {
            assert w'.locks == w.locks;
          }
        }
      }
    }
  }

  /** A value absent from the pool stays absent for the rest of the loop. */
  lemma {:induction false} RemovedStaysRemoved(m: Manager, cookie: string, attempt: nat, n: nat, w: World,
                                               req: Request, expiry: nat -> int, try: Attempt, x: string)
    requires x !in w.qd
    ensures x !in Failover(m, cookie, attempt, n, w, req, expiry, try).world.qd
    decreases n - attempt
  {
    if attempt < n {
      var (req', reading) := try(cookie, attempt, w, req);
      if reading.Read? && reading.end.Signalled? && Retryable(reading.end.signal) {
        var s := reading.end.signal;
        var w' := AfterSignal(w, s, cookie, expiry(attempt));
        assert x !in w'.qd by {
          if s == UsageLimit {
            RemoveCookieSpec(w.qd, cookie);
            if x != cookie {
              CountZero(w.qd, x);
              CountZero(w'.qd, x);
            }
          }
        }
        if |m.cookies| > 0 {
          var (next, m') := GetNextCookie(m).value;
          RemovedStaysRemoved(m', next, attempt + 1, n, w', req', expiry, try, x);
        }
      }
    }
  }

  /** A lockout stays as it is for the rest of the loop unless its cookie
      is rate-limited again. */
  lemma {:induction false} LockStaysSet(m: Manager, cookie: string, attempt: nat, n: nat, w: World,
                                        req: Request, expiry: nat -> int, try: Attempt, x: string)
    requires x in w.locks
    ensures var r := Failover(m, cookie, attempt, n, w, req, expiry, try);
            LastLockOf(r.tried, r.retried, x) < 0 ==> x in r.world.locks && r.world.locks[x] == w.locks[x]
    decreases n - attempt
  {
    if attempt < n {
      var (req', reading) := try(cookie, attempt, w, req);
      if reading.Read? && reading.end.Signalled? && Retryable(reading.end.signal) && |m.cookies| > 0 {
        var s := reading.end.signal;
        var w' := AfterSignal(w, s, cookie, expiry(attempt));
        var (next, m') := GetNextCookie(m).value;
        FailoverStep(m, cookie, attempt, n, w, req, expiry, try);
        var rest := Failover(m', next, attempt + 1, n, w', req', expiry, try);
        LastLockCons(rest.tried, rest.retried, cookie, s, x);
        LockStaysSet(m', next, attempt + 1, n, w', req', expiry, try, x);
      }
    }
  }

  /** When no attempt can drain its channel, neither can the loop end with
      a drained channel. */
  lemma {:induction false} FailoverNeverDrained(m: Manager, cookie: string, attempt: nat, n: nat, w: World,
                                                req: Request, expiry: nat -> int, try: Attempt)
    requires NeverDrains(try)
    ensures Failover(m, cookie, attempt, n, w, req, expiry, try).outcome != Ended(Drained)
    decreases n - attempt
  {
    if attempt < n {
      var (req', reading) := try(cookie, attempt, w, req);
      if reading.Read? && reading.end.Signalled? && Retryable(reading.end.signal) && |m.cookies| > 0 {
        var w' := AfterSignal(w, reading.end.signal, cookie, expiry(attempt));
        var (next, m') := GetNextCookie(m).value;
        FailoverNeverDrained(m', next, attempt + 1, n, w', req', expiry, try);
      }
    }
  }

  /** The concrete attempt: createRequestBody (the corrected build, see the
      findings), encoding of the body, MakeStreamChatRequest with the
      cookie's token, then the event loop. A missing token is reported before
      anything is sent, and an attempt that reads events never drains the
      channel. */
  function Try(cookie: string, attempt: nat, w: World, req: Request, info: ModelInfo, env: Env,
               stream: bool): (r: (Request, Reading))
    ensures r.0 == CreateRequestBody(req, info, env.cfg).0
    ensures r.1 == NotSent(RequestFailed(TokenNotFound)) <==>
              env.marshal(CreateRequestBody(req, info, env.cfg).1).Some? && KeyOf(cookie) !in w.tokens
    ensures r.1 == NotSent(MarshalFailed) <==> env.marshal(CreateRequestBody(req, info, env.cfg).1).None?
    ensures r.1.Read? ==> !r.1.end.Drained?
  {
    var (req', body, _) := CreateRequestBody(req, info, env.cfg);
    match env.marshal(body)
    case None => (req', NotSent(MarshalFailed))
    case Some(json) =>
      match MakeStreamChatRequest(w.tokens, cookie, json, env.proxy, env.requestId(attempt), env.exchange(attempt))
      case Err(e) => (req', NotSent(RequestFailed(e)))
      case Ok((_, evs)) =>
        NeverDrained(evs, env.decode, stream);
        var (texts, end) := RunAttempt(evs, env.decode, stream);
        (req', Read(texts, end))
  }

  /** The concrete attempt as the loop sees it. */
  function Concrete(info: ModelInfo, env: Env, stream: bool): Attempt {
    (c: string, k: nat, w: World, q: Request) => Try(c, k, w, q, info, env, stream)
  }

  /** Everything a request depends on besides the world: JSON decoding of
      events, encoding of the body, the upstream's response to the k-th
      attempt, the request id of the k-th attempt, the proxy, the clock
      reading `now` the cookie scan takes, the reading `clock(k)` taken when
      the k-th attempt's rate-limit notice arrives,
      RATE_LIMIT_COOKIE_LOCK_DURATION and the body configuration. */
  datatype Env = Env(decode: Decode, marshal: UpstreamBody -> Option<string>,
                     exchange: nat -> SseExchange, requestId: nat -> string,
                     proxy: string, now: int, clock: nat -> int, lockSeconds: int, cfg: BodyConfig)

  /** The lockout a rate limit on the k-th attempt sets: the lock duration
      from that attempt's own clock reading. */
  function Expiries(env: Env): (e: nat -> int)
    ensures forall k :: e(k) == LockExpiry(env.clock(k), env.lockSeconds)
  {
    (k: nat) => LockExpiry(env.clock(k), env.lockSeconds)
  }

  /** Go's clock reads the monotonic clock: later readings are never smaller. */
  ghost predicate NonDecreasing(clock: nat -> int) {
    forall j: nat, k: nat :: j <= k ==> clock(j) <= clock(k)
  }

  /** The snapshot a request works on: the eligible cookies now, and the
      world with expired lockouts of listed cookies deleted. */
  function Snapshot(w: World, now: int): (r: (Manager, World))
    ensures r.0.cookies == EligibleRef(w.qd, w.locks, now) && r.0.currentIndex == 0
    ensures r.1.qd == w.qd && r.1.tokens == w.tokens
  {
    ScanMatchesRef(w.qd, w.locks, now);
    var (m, locks) := NewCookieManager(w.qd, w.locks, now);
    (m, w.(locks := locks))
  }

  /** handleNonStreamRequest or handleStreamRequest (which of the two is
      `try`'s business) with the random pick `seed`, at time `now`, with
      a rate limit on attempt k locking its cookie until `expiry(k)`. */
  function Handle(w: World, req: Request, now: int, expiry: nat -> int, seed: nat, try: Attempt): (r: Run)
    ensures var snap := EligibleRef(w.qd, w.locks, now);
            && (r.outcome.NoCookies? <==> |snap| == 0)
            && (r.outcome.NoCookies? ==> r.tried == [])
            && |r.tried| <= |snap|
  {
    var (m, w1) := Snapshot(w, now);
    match GetRandomCookie(m, seed)
    case Err(_) => Run(NoCookies, [], [], [], w1, req)
    case Ok((c, m1)) => Failover(m1, c, 0, |m.cookies|, w1, req, expiry, try)
  }

  /** The loop a request with a non-empty snapshot runs. */
  lemma HandleRunsFailover(w: World, req: Request, now: int, expiry: nat -> int, seed: nat, try: Attempt)
    requires |EligibleRef(w.qd, w.locks, now)| > 0
    ensures var snap := EligibleRef(w.qd, w.locks, now);
            var n := |snap|;
            Handle(w, req, now, expiry, seed, try)
              == Failover(Manager(snap, seed % n), snap[seed % n], 0, n, Snapshot(w, now).1, req, expiry, try)
  {
  }

  /** From a full snapshot: the i-th attempt uses the entry i places after
      the first pick, wrapping around once. */
  lemma FailoverCycles(m: Manager, w: World, req: Request, expiry: nat -> int, try: Attempt)
    requires 0 < |m.cookies| && m.currentIndex < |m.cookies|
    ensures var n := |m.cookies|;
            var s := m.currentIndex;
            var r := Failover(m, m.cookies[s], 0, n, w, req, expiry, try);
            forall i :: 0 <= i < |r.tried| ==> r.tried[i] == m.cookies[if s + i < n then s + i else s + i - n]
  {
    var n := |m.cookies|;
    var r := Failover(m, m.cookies[m.currentIndex], 0, n, w, req, expiry, try);
    FailoverRoundRobin(m, m.cookies[m.currentIndex], 0, n, w, req, expiry, try);
    forall i | 0 <= i < |r.tried|
      ensures r.tried[i] == m.cookies[if m.currentIndex + i < n then m.currentIndex + i else m.currentIndex + i - n]
    {
      assert r.tried[i] == m.cookies[Visit(m, i)];
      AdvanceIndex(m, i);
    }
  }

  /** From a full snapshot: running out of attempts means every entry was
      tried and every attempt asked for a retry. */
  lemma FailoverExhaustedTriedAll(m: Manager, w: World, req: Request, expiry: nat -> int, try: Attempt)
    requires 0 < |m.cookies| && m.currentIndex < |m.cookies|
    ensures var n := |m.cookies|;
            var r := Failover(m, m.cookies[m.currentIndex], 0, n, w, req, expiry, try);
            r.outcome.Exhausted? ==>
              && |r.tried| == n && |r.retried| == n
              && (forall j :: 0 <= j < n ==> m.cookies[j] in r.tried)
  {
    var n := |m.cookies|;
    var r := Failover(m, m.cookies[m.currentIndex], 0, n, w, req, expiry, try);
    if r.outcome.Exhausted? {
      FailoverExhausted(m, m.cookies[m.currentIndex], 0, n, w, req, expiry, try);
      FailoverCycles(m, w, req, expiry, try);
      var i := m.currentIndex;
      forall j | 0 <= j < n
        ensures m.cookies[j] in r.tried
      {
        var k := if j >= i then j - i else n - i + j;
        assert r.tried[k] == m.cookies[j];
      }
    }
  }

  /** The first cookie is the snapshot entry at `seed` mod n; the i-th
      retry uses the entry i places further on, wrapping around once. */
  lemma HandleRoundRobin(w: World, req: Request, now: int, expiry: nat -> int, seed: nat, try: Attempt)
    requires |EligibleRef(w.qd, w.locks, now)| > 0
    ensures var snap := EligibleRef(w.qd, w.locks, now);
            var r := Handle(w, req, now, expiry, seed, try);
            var n := |snap|;
            forall i :: 0 <= i < |r.tried| ==>
              r.tried[i] == snap[if seed % n + i < n then seed % n + i else seed % n + i - n]
  {
    var snap := EligibleRef(w.qd, w.locks, now);
    HandleRunsFailover(w, req, now, expiry, seed, try);
    FailoverCycles(Manager(snap, seed % |snap|), Snapshot(w, now).1, req, expiry, try);
  }

  /** A request that runs out of attempts has tried every eligible cookie,
      each once, and every attempt asked for a retry. */
  lemma HandleExhaustedTriedAll(w: World, req: Request, now: int, expiry: nat -> int, seed: nat, try: Attempt)
    ensures var snap := EligibleRef(w.qd, w.locks, now);
            var r := Handle(w, req, now, expiry, seed, try);
            r.outcome.Exhausted? ==>
              && |r.tried| == |snap| && |r.retried| == |snap|
              && (forall j :: 0 <= j < |snap| ==> snap[j] in r.tried)
  {
    var snap := EligibleRef(w.qd, w.locks, now);
    if |snap| > 0 {
      HandleRunsFailover(w, req, now, expiry, seed, try);
      FailoverExhaustedTriedAll(Manager(snap, seed % |snap|), Snapshot(w, now).1, req, expiry, try);
    }
  }

  /** No attempt `try` makes ends with a drained channel. */
  ghost predicate NeverDrains(try: Attempt) {
    forall c, k, w, q :: try(c, k, w, q).1.Read? ==> !try(c, k, w, q).1.end.Drained?
  }

  /** The concrete attempt never drains its channel. */
  lemma ConcreteNeverDrains(info: ModelInfo, env: Env, stream: bool)
    ensures NeverDrains(Concrete(info, env, stream))
  {
    var try := Concrete(info, env, stream);
    forall c, k, w, q
      ensures try(c, k, w, q).1.Read? ==> !try(c, k, w, q).1.end.Drained?
    {
      assert try(c, k, w, q) == Try(c, k, w, q, info, env, stream);
    }
  }

  /** A request whose attempts never drain their channel never ends with a
      drained channel: the streaming step never asks gin to run it again. */
  lemma HandleNeverDrained(w: World, req: Request, now: int, expiry: nat -> int, seed: nat, try: Attempt)
    requires NeverDrains(try)
    ensures Handle(w, req, now, expiry, seed, try).outcome != Ended(Drained)
  {
    var (m, w1) := Snapshot(w, now);
    if |m.cookies| > 0 {
      var (c, m1) := GetRandomCookie(m, seed).value;
      FailoverNeverDrained(m1, c, 0, |m.cookies|, w1, req, expiry, try);
    }
  }

  /** ChatForOpenAI: validation, then the handler the `stream` flag picks.
      A rate limit locks the cookie for RATE_LIMIT_COOKIE_LOCK_DURATION
      seconds from the clock reading taken when its notice arrives. */
  function ChatForOpenAI(w: World, bound: Option<Request>, env: Env, seed: nat): (r: Result<Run, ApiError>)
    ensures r.Err? <==> Validate(bound).Err?
    ensures r.Err? ==> r.error == Validate(bound).error
    ensures r.Ok? ==> var snap := EligibleRef(w.qd, w.locks, env.now);
                      && (r.value.outcome.NoCookies? <==> |snap| == 0)
                      && |r.value.tried| <= |snap|
  {
    match Validate(bound)
    case Err(e) => Err(e)
    case Ok((req, info)) =>
      Ok(Handle(w, req, env.now, Expiries(env), seed, Concrete(info, env, req.stream)))
  }

  /** A cookie retried because of a rate limit ends locked until the lock
      duration past the clock reading of its last rate-limited attempt; with
      Go's non-decreasing clock it is therefore locked at every instant from
      its own attempt's reading up to RATE_LIMIT_COOKIE_LOCK_DURATION seconds
      later. */
  lemma ChatForOpenAIRateLimitLasts(w: World, bound: Option<Request>, env: Env, seed: nat)
    ensures var r := ChatForOpenAI(w, bound, env, seed);
            r.Ok? ==>
              && (forall i :: 0 <= i < |r.value.retried| && r.value.retried[i] == RateLimited ==>
                    var j := LastLockOf(r.value.tried, r.value.retried, r.value.tried[i]);
                    && i <= j
                    && r.value.tried[i] in r.value.world.locks
                    && r.value.world.locks[r.value.tried[i]] == LockExpiry(env.clock(j), env.lockSeconds))
              && (NonDecreasing(env.clock) ==>
                    forall i, t :: 0 <= i < |r.value.retried| && r.value.retried[i] == RateLimited
                                   && env.clock(i) <= t < env.clock(i) + env.lockSeconds * NanosPerSecond
                                   ==> Locked(r.value.world.locks, r.value.tried[i], t))
  {
    if Validate(bound).Ok? {
      var (req, info) := Validate(bound).value;
      var snap := EligibleRef(w.qd, w.locks, env.now);
      var e := Expiries(env);
      var try := Concrete(info, env, req.stream);
      var r := ChatForOpenAI(w, bound, env, seed).value;
      if |snap| > 0 {
        var m := Manager(snap, seed % |snap|);
        HandleRunsFailover(w, req, env.now, e, seed, try);
        forall i | 0 <= i < |r.retried| && r.retried[i] == RateLimited
          ensures var j := LastLockOf(r.tried, r.retried, r.tried[i]);
                  && i <= j
                  && r.tried[i] in r.world.locks
                  && r.world.locks[r.tried[i]] == LockExpiry(env.clock(j), env.lockSeconds)
        {
          FailoverLocks(m, snap[seed % |snap|], 0, |snap|, Snapshot(w, env.now).1, req, e, try, i);
        }
        if NonDecreasing(env.clock) {
          forall i, t | 0 <= i < |r.retried| && r.retried[i] == RateLimited
                        && env.clock(i) <= t < env.clock(i) + env.lockSeconds * NanosPerSecond
            ensures Locked(r.world.locks, r.tried[i], t)
          {
            var j := LastLockOf(r.tried, r.retried, r.tried[i]);
            assert env.clock(i) <= env.clock(j);
          }
        }
      }
    }
  }
}
