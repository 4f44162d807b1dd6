/** The server-sent-event side of the transport (cycletls/index.go
    dispatcherSSE and DoSSE): the read loop over the response body and the
    finite event sequence it produces. */
module Sse {
  import opened Wrappers
  import opened Str
  import opened Headers
  import opened Transport

  // ---------------------------------------------------------------------
  // dispatcherSSE

  /** One result of `ReadString('\n')`: a complete line, which keeps its
      trailing '\n' as ReadString returns it, a read error with the partial
      data the failing read returned, or end of input with the unterminated
      fragment. Concatenating the texts in order gives back the body. */
  datatype Read = Line(text: string) | ReadError(partial: string, msg: string) | Eof(fragment: string)

  datatype SseExchange =
    | SseTransportFailure(errStatus: int, errMsg: string, errText: string)
    | SseReceived(status: int, input: seq<Read>, redirectedTo: Option<string>)

  datatype SseEvent = SseEvent(requestId: string, status: int, data: string, done: bool, finalUrl: string)

  const MaxReadRetries: nat := 3
  const DoneToken: string := "[DONE]"

  /** Exactly one event is terminal and it is the last one. */
  predicate WellTerminated(evs: seq<SseEvent>) {
    && |evs| > 0
    && evs[|evs| - 1].done
    && forall i :: 0 <= i < |evs| - 1 ==> !evs[i].done
  }

  predicate Is2xx(status: int) {
    200 <= status < 300
  }

  /** What io.ReadAll returns for the body: everything read, up to and
      including the partial data of a read error, which ends it and is
      otherwise ignored. */
  function ReadAllText(input: seq<Read>): string {
    if |input| == 0 then ""
    else match input[0]
      case Line(t) => t + ReadAllText(input[1..])
      case ReadError(p, _) => p
      case Eof(f) => f
  }

  /** The payload a non-blank line carries. */
  function LinePayload(line: string): string {
    TrimSpace(TrimPrefix(line, "data: "))
  }

  datatype StreamCtx = StreamCtx(requestId: string, status: int, finalUrl: string)

  function Ev(c: StreamCtx, data: string, done: bool): SseEvent {
    SseEvent(c.requestId, c.status, data, done, c.finalUrl)
  }

  /** The shape of the decoder's output, one event at a time: every event
      but the last is non-terminal and carries a payload; the last is
      terminal and is the "[DONE]" event or the read-error event; all carry
      the response's id, status and URL. */
  predicate Framed(c: StreamCtx, evs: seq<SseEvent>) {
    && |evs| > 0
    && if |evs| == 1 then
         && evs[0] == Ev(c, evs[0].data, true)
         && (evs[0].data == DoneToken || HasPrefix(evs[0].data, "Error reading stream: "))
       else
         && evs[0].data != "" && evs[0] == Ev(c, evs[0].data, false)
         && Framed(c, evs[1..])
  }

  /** Framed, stated for all positions at once. */
  lemma {:induction false} FramedShape(c: StreamCtx, evs: seq<SseEvent>)
    requires Framed(c, evs)
    ensures WellTerminated(evs)
    ensures forall i :: 0 <= i < |evs| - 1 ==> evs[i].data != "" && evs[i] == Ev(c, evs[i].data, false)
    ensures evs[|evs| - 1].data == DoneToken || HasPrefix(evs[|evs| - 1].data, "Error reading stream: ")
    ensures evs[|evs| - 1] == Ev(c, evs[|evs| - 1].data, true)
  {
    if |evs| > 1 {
      FramedShape(c, evs[1..]);
      assert evs[|evs| - 1] == evs[1..][|evs| - 2];
      forall i | 1 <= i < |evs| - 1
        ensures evs[i].data != "" && evs[i] == Ev(c, evs[i].data, false)
      {
        assert evs[i] == evs[1..][i - 1];
      }
    }
  }

  /** The read loop of dispatcherSSE for a 2xx response, followed by the
      closing event. `retries` counts consecutive read errors. */
  function DecodeLines(c: StreamCtx, input: seq<Read>, retries: nat): (evs: seq<SseEvent>)
    requires retries <= MaxReadRetries
    ensures |evs| > 0
    decreases |input|
  {
    if |input| == 0 then [Ev(c, DoneToken, true)]
    else match input[0]
      case Eof(_) => [Ev(c, DoneToken, true)]
      case ReadError(_, msg) =>
        if retries < MaxReadRetries then DecodeLines(c, input[1..], retries + 1)
        else [Ev(c, "Error reading stream: " + msg, true)]
      case Line(text) =>
        var line := TrimSpace(text);
        if line == "" then DecodeLines(c, input[1..], 0)
        else
          var data := LinePayload(line);
          var ev := if data != "" then [Ev(c, data, false)] else [];
          ev + (if HasSuffix(line, DoneToken) then [Ev(c, DoneToken, true)] else DecodeLines(c, input[1..], 0))
  }

  /** Every output of the read loop is framed: payload events, then one
      closing event. */
  lemma {:induction false} DecodeFramed(c: StreamCtx, input: seq<Read>, retries: nat)
    requires retries <= MaxReadRetries
    ensures Framed(c, DecodeLines(c, input, retries))
    decreases |input|
  {
    if |input| > 0 && !input[0].Eof? {
      if input[0].ReadError? {
        if retries < MaxReadRetries {
          DecodeFramed(c, input[1..], retries + 1);
        }
      } else {
        var line := TrimSpace(input[0].text);
        if line == "" {
          DecodeFramed(c, input[1..], 0);
        } else {
          var data := LinePayload(line);
          var ev := if data != "" then [Ev(c, data, false)] else [];
          var tail := if HasSuffix(line, DoneToken) then [Ev(c, DoneToken, true)] else DecodeLines(c, input[1..], 0);
          if !HasSuffix(line, DoneToken) {
            DecodeFramed(c, input[1..], 0);
          }
          DecodeLineStep(c, input);
          assert if ev == [] then ev + tail == tail else (ev + tail)[0] == ev[0] && (ev + tail)[1..] == tail;
        }
      }
    }
  }

  /** dispatcherSSE: the whole finite event sequence of one streaming call. */
  function DispatchSse(url: string, ex: SseExchange): (evs: seq<SseEvent>)
    ensures WellTerminated(evs)
    ensures forall i :: 0 <= i < |evs| ==> evs[i].data != ""
    ensures ex.SseTransportFailure? ==>
              evs == [SseEvent(SingleShotId, ex.errStatus, ex.errMsg + "-> \n" + ex.errText, true, url)]
    ensures ex.SseReceived? && !Is2xx(ex.status) ==>
              var body := ReadAllText(ex.input);
              evs == [SseEvent(SingleShotId, ex.status,
                               if body == "" then "HTTP error status: " + IntToString(ex.status) else body,
                               true, url)]
    ensures ex.SseReceived? && Is2xx(ex.status) ==>
              forall i :: 0 <= i < |evs| ==> evs[i].status == ex.status
  {
    match ex
    case SseTransportFailure(st, msg, text) =>
      [SseEvent(SingleShotId, st, msg + "-> \n" + text, true, url)]
    case SseReceived(st, input, redirected) =>
      if !Is2xx(st) then
        var body := ReadAllText(input);
        [SseEvent(SingleShotId, st, if body == "" then "HTTP error status: " + IntToString(st) else body, true, url)]
      else
        var c := StreamCtx(SingleShotId, st, redirected.GetOr(url));
        var evs := DecodeLines(c, input, 0);
        DecodeFramed(c, input, 0);
        FramedShape(c, evs);
        evs
  }

  /** DoSSE: defaults, preparation, then the event sequence; it never
      returns an error. */
  function DoSse(url: string, o: Options, httpMethod: string, host: string, ex: SseExchange): (r: (Prepared, seq<SseEvent>, Option<string>))
    ensures r.2.None?
    ensures WellTerminated(r.1)
    ensures forall i :: 0 <= i < |r.1| ==> r.1[i].data != ""
    ensures "User-Agent" in r.0.headers
    ensures o.userAgent == "" ==> r.0.headers["User-Agent"] == DefaultUserAgent
    ensures o.userAgent != "" ==> r.0.headers["User-Agent"] == o.userAgent
  {
    var o' := WithDefaults(o, url, httpMethod);
    (ProcessRequest(o', host), DispatchSse(url, ex), None)
  }

  // ---------------------------------------------------------------------
  // Properties of the decoder

  /** The lines the decoder consumes when no read fails: every complete line
      up to and including the first whose trimmed text ends in "[DONE]". */
  function LinesBeforeStop(input: seq<Read>): seq<string> {
    if |input| == 0 || !input[0].Line? then []
    else if HasSuffix(TrimSpace(input[0].text), DoneToken) then [input[0].text]
    else [input[0].text] + LinesBeforeStop(input[1..])
  }

  /** The payloads of those lines that are not blank and carry one. */
  function Payloads(lines: seq<string>): seq<string> {
    if |lines| == 0 then []
    else
      var p := LinePayload(TrimSpace(lines[0]));
      (if TrimSpace(lines[0]) != "" && p != "" then [p] else []) + Payloads(lines[1..])
  }

  function Datas(evs: seq<SseEvent>): seq<string> {
    if |evs| == 0 then [] else [evs[0].data] + Datas(evs[1..])
  }

  predicate NoReadErrors(input: seq<Read>) {
    forall i :: 0 <= i < |input| ==> !input[i].ReadError?
  }

  lemma {:induction false} DatasAppend(a: seq<SseEvent>, b: seq<SseEvent>)
    ensures Datas(a + b) == Datas(a) + Datas(b)
  {
    if |a| > 0 {
      assert (a + b)[0] == a[0] && (a + b)[1..] == a[1..] + b;
      DatasAppend(a[1..], b);
    } else {
      assert a + b == b;
    }
  }

  lemma PayloadsCons(t: string, rest: seq<string>)
    ensures Payloads([t] + rest)
         == (if TrimSpace(t) != "" && LinePayload(TrimSpace(t)) != "" then [LinePayload(TrimSpace(t))] else [])
            + Payloads(rest)
  {
    assert ([t] + rest)[0] == t && ([t] + rest)[1..] == rest;
  }

  /** One complete non-blank line: its payload event, if any, then either
      the closing event (a "[DONE]" line) or the events of the rest. */
  lemma DecodeLineStep(c: StreamCtx, input: seq<Read>)
    requires |input| > 0 && input[0].Line? && TrimSpace(input[0].text) != ""
    ensures var line := TrimSpace(input[0].text);
            var data := LinePayload(line);
            var ev := if data != "" then [Ev(c, data, false)] else [];
            DecodeLines(c, input, 0)
              == ev + (if HasSuffix(line, DoneToken) then [Ev(c, DoneToken, true)] else DecodeLines(c, input[1..], 0))
  {
  }

  /** The non-terminal events carry, in order, the payloads of the lines
      read up to the terminator, and the stream ends with "[DONE]". */
  predicate MatchesLines(c: StreamCtx, input: seq<Read>) {
    var evs := DecodeLines(c, input, 0);
    && Datas(evs[..|evs| - 1]) == Payloads(LinesBeforeStop(input))
    && evs[|evs| - 1] == Ev(c, DoneToken, true)
  }

  lemma MatchesBlankLine(c: StreamCtx, input: seq<Read>)
    requires |input| > 0 && input[0].Line? && TrimSpace(input[0].text) == ""
    requires MatchesLines(c, input[1..])
    ensures MatchesLines(c, input)
  {
    var text := input[0].text;
    assert DecodeLines(c, input, 0) == DecodeLines(c, input[1..], 0);
    assert !HasSuffix(TrimSpace(text), DoneToken);
    assert LinesBeforeStop(input) == [text] + LinesBeforeStop(input[1..]);
    PayloadsCons(text, LinesBeforeStop(input[1..]));
  }

  lemma MatchesDoneLine(c: StreamCtx, input: seq<Read>)
    requires |input| > 0 && input[0].Line? && TrimSpace(input[0].text) != ""
    requires HasSuffix(TrimSpace(input[0].text), DoneToken)
    ensures MatchesLines(c, input)
  {
    var text := input[0].text;
    var data := LinePayload(TrimSpace(text));
    var ev := if data != "" then [Ev(c, data, false)] else [];
    var evs := DecodeLines(c, input, 0);
    DecodeLineStep(c, input);
    assert evs == ev + [Ev(c, DoneToken, true)];
    assert evs[..|evs| - 1] == ev;
    assert LinesBeforeStop(input) == [text];
    PayloadsCons(text, []);
  }

  lemma MatchesOtherLine(c: StreamCtx, input: seq<Read>)
    requires |input| > 0 && input[0].Line? && TrimSpace(input[0].text) != ""
    requires !HasSuffix(TrimSpace(input[0].text), DoneToken)
    requires MatchesLines(c, input[1..])
    ensures MatchesLines(c, input)
  {
    var text := input[0].text;
    var data := LinePayload(TrimSpace(text));
    var ev := if data != "" then [Ev(c, data, false)] else [];
    var evs := DecodeLines(c, input, 0);
    var rest := DecodeLines(c, input[1..], 0);
    DecodeLineStep(c, input);
    assert evs == ev + rest;
    assert evs[..|evs| - 1] == ev + rest[..|rest| - 1];
    DatasAppend(ev, rest[..|rest| - 1]);
    assert LinesBeforeStop(input) == [text] + LinesBeforeStop(input[1..]);
    PayloadsCons(text, LinesBeforeStop(input[1..]));
  }

  /** Without read errors the non-terminal events carry, in order, the
      payloads of the lines read up to the terminator, and the stream
      ends with the "[DONE]" event. */
  lemma {:induction false} DecodeMatchesLines(c: StreamCtx, input: seq<Read>)
    requires NoReadErrors(input)
    ensures var evs := DecodeLines(c, input, 0);
            Datas(evs[..|evs| - 1]) == Payloads(LinesBeforeStop(input))
            && evs[|evs| - 1] == Ev(c, DoneToken, true)
    decreases |input|
  {
    if |input| == 0 || input[0].Eof? {
      var evs := DecodeLines(c, input, 0);
      assert evs[..|evs| - 1] == [];
    } else {
      var line := TrimSpace(input[0].text);
      assert NoReadErrors(input[1..]);
      if line != "" && HasSuffix(line, DoneToken) {
        MatchesDoneLine(c, input);
      } else {
        DecodeMatchesLines(c, input[1..]);
        if line == "" {
          MatchesBlankLine(c, input);
        } else {
          MatchesOtherLine(c, input);
        }
      }
    }
  }

  /** A body whose lines are all blank yields only the closing event. */
  lemma {:induction false} BlankBodyOnlyDone(c: StreamCtx, input: seq<Read>)
    requires forall i :: 0 <= i < |input| ==> input[i].Line? && TrimSpace(input[i].text) == ""
    ensures DecodeLines(c, input, 0) == [Ev(c, DoneToken, true)]
    decreases |input|
  {
    if |input| > 0 {
      BlankBodyOnlyDone(c, input[1..]);
    }
  }

  /** Nothing after the first line ending in "[DONE]" is read. */
  lemma {:induction false} StopsAtDoneLine(c: StreamCtx, pre: seq<Read>, t: string, post1: seq<Read>, post2: seq<Read>, retries: nat)
    requires retries <= MaxReadRetries
    requires HasSuffix(TrimSpace(t), DoneToken)
    requires forall i :: 0 <= i < |pre| ==> pre[i].Line? && !HasSuffix(TrimSpace(pre[i].text), DoneToken)
    ensures DecodeLines(c, pre + [Line(t)] + post1, retries) == DecodeLines(c, pre + [Line(t)] + post2, retries)
    decreases |pre|
  {
    if |pre| > 0 {
      assert (pre + [Line(t)] + post1)[1..] == pre[1..] + [Line(t)] + post1;
      assert (pre + [Line(t)] + post2)[1..] == pre[1..] + [Line(t)] + post2;
      StopsAtDoneLine(c, pre[1..], t, post1, post2, 0);
    } else {
      assert (pre + [Line(t)] + post1)[0] == Line(t);
      assert (pre + [Line(t)] + post2)[0] == Line(t);
      assert TrimSpace(t) != "";
    }
  }

  function Errors(k: nat, partial: string, msg: string): (r: seq<Read>)
    ensures |r| == k && forall i :: 0 <= i < k ==> r[i] == ReadError(partial, msg)
  {
    if k == 0 then [] else [ReadError(partial, msg)] + Errors(k - 1, partial, msg)
  }

  lemma ErrorsThenRest(k: nat, partial: string, msg: string, rest: seq<Read>)
    ensures k == 0 ==> Errors(k, partial, msg) + rest == rest
    ensures k > 0 ==> Errors(k, partial, msg) + rest == [ReadError(partial, msg)] + (Errors(k - 1, partial, msg) + rest)
  {
    if k > 0 {
      assert Errors(k, partial, msg) == [ReadError(partial, msg)] + Errors(k - 1, partial, msg);
    } else {
      assert Errors(k, partial, msg) == [];
    }
  }

  /** One read error within the retry budget only advances the counter. */
  lemma ReadErrorStep(c: StreamCtx, partial: string, msg: string, rest: seq<Read>, retries: nat)
    requires retries < MaxReadRetries
    ensures DecodeLines(c, [ReadError(partial, msg)] + rest, retries) == DecodeLines(c, rest, retries + 1)
  {
    assert ([ReadError(partial, msg)] + rest)[1..] == rest;
  }

  /** Read errors within the retry budget produce no event: each one only
      advances the retry counter. */
  lemma {:induction false} RetriedErrorsInvisible(c: StreamCtx, k: nat, partial: string, msg: string, rest: seq<Read>, retries: nat)
    requires retries + k <= MaxReadRetries
    ensures DecodeLines(c, Errors(k, partial, msg) + rest, retries) == DecodeLines(c, rest, retries + k)
    decreases k
  {
    ErrorsThenRest(k, partial, msg, rest);
    if k > 0 {
      ReadErrorStep(c, partial, msg, Errors(k - 1, partial, msg) + rest, retries);
      RetriedErrorsInvisible(c, k - 1, partial, msg, rest, retries + 1);
    }
  }

  /** The retry counter only matters for the next read error. */
  lemma RetriesForgottenOnSuccess(c: StreamCtx, rest: seq<Read>, r1: nat, r2: nat)
    requires r1 <= MaxReadRetries && r2 <= MaxReadRetries
    requires |rest| == 0 || !rest[0].ReadError?
    ensures DecodeLines(c, rest, r1) == DecodeLines(c, rest, r2)
  {
  }

  /** The fourth consecutive read error ends the stream with an error event. */
  lemma FourthErrorTerminates(c: StreamCtx, partial: string, msg: string, rest: seq<Read>)
    ensures DecodeLines(c, Errors(4, partial, msg) + rest, 0) == [Ev(c, "Error reading stream: " + msg, true)]
  {
    var tail := [ReadError(partial, msg)] + rest;
    assert Errors(4, partial, msg) + rest == Errors(3, partial, msg) + tail by {
      assert Errors(4, partial, msg) == Errors(3, partial, msg) + [ReadError(partial, msg)];
    }
    RetriedErrorsInvisible(c, 3, partial, msg, tail, 0);
    assert tail[0] == ReadError(partial, msg);
  }

  /** A blank-free line always carries a payload: the `data != ""` test in
      the read loop never fails. */
  lemma NonBlankLineHasPayload(text: string)
    requires TrimSpace(text) != ""
    ensures LinePayload(TrimSpace(text)) != ""
  {
    var line := TrimSpace(text);
    TrimSpaceIsTrim(text);
    assert !IsSpace(line[|line| - 1]);
    if HasPrefix(line, "data: ") {
      assert line[5] == ' ';
      assert |line| - 1 != 5;
      var rest := line[6..];
      assert rest[|rest| - 1] == line[|line| - 1];
      TrimSpaceEmptyIff(rest);
    } else {
      TrimSpaceEmptyIff(line);
    }
  }

  /** A "data: [DONE]" line is forwarded as a non-terminal "[DONE]" event
      before the closing one. */
  lemma DataDoneLine(c: StreamCtx, rest: seq<Read>)
    ensures DecodeLines(c, [Line("data: [DONE]")] + rest, 0) == [Ev(c, DoneToken, false), Ev(c, DoneToken, true)]
  {
    var t := "data: [DONE]";
    assert TrimLeft(t) == t;
    assert TrimRight(t) == t;
    assert t[..6] == "data: ";
    assert TrimPrefix(t, "data: ") == DoneToken;
    assert TrimLeft(DoneToken) == DoneToken;
    assert TrimRight(DoneToken) == DoneToken;
    assert t[|t| - 6..] == DoneToken;
    assert ([Line(t)] + rest)[0] == Line(t);
  }

  /** io.ReadAll keeps the lines before a failing read and that read's
      partial data, and nothing after it. */
  lemma {:induction false} ReadAllStopsAtError(pre: seq<Read>, partial: string, msg: string, rest: seq<Read>)
    requires forall i :: 0 <= i < |pre| ==> pre[i].Line?
    ensures ReadAllText(pre + [ReadError(partial, msg)] + rest) == ReadAllText(pre) + partial
    decreases |pre|
  {
    if |pre| == 0 {
      assert pre + [ReadError(partial, msg)] + rest == [ReadError(partial, msg)] + rest;
    } else {
      assert (pre + [ReadError(partial, msg)] + rest)[1..] == pre[1..] + [ReadError(partial, msg)] + rest;
      ReadAllStopsAtError(pre[1..], partial, msg, rest);
    }
  }

  /** A 503 answer with an empty body becomes one terminal event. */
  lemma EmptyErrorBody(url: string, redirected: Option<string>)
    ensures DispatchSse(url, SseReceived(503, [Eof("")], redirected))
         == [SseEvent(SingleShotId, 503, "HTTP error status: 503", true, url)]
  {
    assert ReadAllText([Eof("")]) == "";
    assert IntToString(503) == "503" by {
      assert DigitChar(5) == '5' && DigitChar(0) == '0' && DigitChar(3) == '3';
      assert NatToString(50) == "50";
    }
    assert "HTTP error status: " + "503" == "HTTP error status: 503";
  }
}
