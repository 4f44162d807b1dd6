/** The upstream side of the gateway: the chat request descriptor built
    from the token map (qodo-api/api.go) and the periodic token refresh
    with its next-run arithmetic (job/cookie.go). The token exchange, the
    request id and the clock are parameters. */
module Upstream {
  import opened Wrappers
  import opened Str
  import opened Headers
  import opened Transport
  import opened Sse
  import opened Pool

  const BaseUrl := "https://api.gen.qodo.ai"
  const ChatEndpoint := BaseUrl + "/v2/chats/chat"
  const UpstreamHost := "api.gen.qodo.ai"
  /** Ten hours, in the seconds the client reads its timeout in. */
  const ChatTimeout := 10 * 60 * 60
  const TokenNotFound := "cookie not found in QDTokenMap"

  /** The header map of the request, in the order of the literal. Every
      name canonicalises differently, so the order is immaterial. */
  function ChatHeaders(accessToken: string, requestId: string): (h: seq<(string, string)>)
    ensures |h| == 8 && h[7] == ("Authorization", "Bearer " + accessToken)
  {
    [("User-Agent", "axios/1.7.9"),
     ("Connection", "close"),
     ("Host", UpstreamHost),
     ("Accept", "text/plain"),
     ("Accept-Encoding", "gzip, compress, deflate, br"),
     ("Content-Type", "application/json"),
     ("Request-id", requestId),
     ("Authorization", "Bearer " + accessToken)]
  }

  /** The options of MakeStreamChatRequest; the user agent, fingerprint and
      header order are left empty. */
  function ChatOptions(body: string, accessToken: string, requestId: string, proxy: string): (o: Options)
    ensures o.userAgent == "" && o.ja3 == "" && o.headerOrder == []
    ensures o.body == body && o.proxy == proxy && o.timeout == 36000 && o.httpMethod == "POST"
  {
    Options("", "POST", ChatHeaders(accessToken, requestId), body, "", "", proxy, ChatTimeout, [])
  }

  lemma AuthorizationCanonical()
    ensures CanonicalKey("Authorization") == "Authorization"
  {
    var k := "Authorization";
    forall i | 0 <= i < |k| ensures IsTokenChar(k[i]) && k[i] == CanonicalChar(k, i) {
    }
    CanonicalLiteral(k, k);
  }

  lemma AuthorizationLast(accessToken: string, requestId: string)
    ensures LastCopied(ChatHeaders(accessToken, requestId), "Authorization") == Some(7)
  {
    AuthorizationCanonical();
  }

  lemma UpperPost()
    ensures Upper("POST") == "POST"
  {
  }

  /** MakeStreamChatRequest: look the cookie's key up in the token map and
      stream a POST of the body, verbatim, to the chat endpoint. */
  function MakeStreamChatRequest(tokens: map<string, TokenInfo>, cookie: string, body: string, proxy: string,
                                 requestId: string, ex: SseExchange): (r: Result<(Prepared, seq<SseEvent>), string>)
    ensures KeyOf(cookie) !in tokens <==> r == Err(TokenNotFound)
    ensures r.Ok? ==> WellTerminated(r.value.1)
    ensures r.Ok? ==> forall i :: 0 <= i < |r.value.1| ==> r.value.1[i].data != ""
  {
    var key := KeyOf(cookie);
    if key !in tokens then Err(TokenNotFound)
    else
      var (p, events, _) := DoSse(ChatEndpoint, ChatOptions(body, tokens[key].accessToken, requestId, proxy), "POST", UpstreamHost, ex);
      Ok((p, events))
  }

  /** What goes on the wire: a POST of the body to the chat endpoint,
      bearing the access token of the cookie's key as read at call time,
      and the client's default browser user agent in place of the
      "axios/1.7.9" the options name. */
  lemma ChatRequestShape(tokens: map<string, TokenInfo>, cookie: string, body: string, proxy: string,
                         requestId: string, ex: SseExchange)
    requires KeyOf(cookie) in tokens
    ensures var p := MakeStreamChatRequest(tokens, cookie, body, proxy, requestId, ex).value.0;
            && p.url == ChatEndpoint && p.httpMethod == "POST" && p.body == body
            && p.options.timeout == ChatTimeout && p.options.proxy == proxy
            && p.headers["Host"] == UpstreamHost
            && p.headers["User-Agent"] == DefaultUserAgent
            && "Authorization" in p.headers
            && p.headers["Authorization"] == "Bearer " + tokens[KeyOf(cookie)].accessToken
  {
    var o := ChatOptions(body, tokens[KeyOf(cookie)].accessToken, requestId, proxy);
    var o' := WithDefaults(o, ChatEndpoint, "POST");
    AuthorizationLast(tokens[KeyOf(cookie)].accessToken, requestId);
    WireHeaderContents(o', UpstreamHost, "Authorization");
    UpperPost();
  }

  // ---------------------------------------------------------------------
  // UpdateCookieTokenTask

  /** One refresh: only a cookie whose key is in the map; the request uses
      the stored api key and refresh token; a failure changes nothing. */
  function RefreshOne(tokens: map<string, TokenInfo>, cookie: string,
                      exchange: (string, string) -> Result<Grant, string>): (r: map<string, TokenInfo>)
    ensures r.Keys == tokens.Keys
    ensures forall k :: k in tokens && k != KeyOf(cookie) ==> r[k] == tokens[k]
  {
    var key := KeyOf(cookie);
    if key !in tokens then tokens
    else
      match exchange(tokens[key].apiKey, tokens[key].refreshToken)
      case Err(_) => tokens
      case Ok(g) => tokens[key := TokenInfo(key, g.refreshToken, g.accessToken)]
  }

  /** The refresh outcome for the one key a cookie names. */
  lemma RefreshOneCases(tokens: map<string, TokenInfo>, cookie: string,
                        exchange: (string, string) -> Result<Grant, string>)
    requires KeyOf(cookie) in tokens
    ensures var k := KeyOf(cookie);
            var t := tokens[k];
            var r := RefreshOne(tokens, cookie, exchange);
            match exchange(t.apiKey, t.refreshToken)
            case Err(_) => r == tokens
            case Ok(g) => r[k] == TokenInfo(k, g.refreshToken, g.accessToken)
  {
  }

  /** The loop over the snapshot's cookies, in order. */
  function RefreshAll(cookies: seq<string>, tokens: map<string, TokenInfo>,
                      exchange: (string, string) -> Result<Grant, string>): (r: map<string, TokenInfo>)
    ensures r.Keys == tokens.Keys
    decreases |cookies|
  {
    if |cookies| == 0 then tokens
    else RefreshAll(cookies[1..], RefreshOne(tokens, cookies[0], exchange), exchange)
  }

  /** A key no snapshot cookie names keeps its entry. */
  lemma {:induction false} RefreshAllUntouched(cookies: seq<string>, tokens: map<string, TokenInfo>,
                                               exchange: (string, string) -> Result<Grant, string>, k: string)
    requires k in tokens
    requires forall i :: 0 <= i < |cookies| ==> KeyOf(cookies[i]) != k
    ensures RefreshAll(cookies, tokens, exchange)[k] == tokens[k]
    decreases |cookies|
  {
    if |cookies| > 0 {
      var t' := RefreshOne(tokens, cookies[0], exchange);
      RefreshAllUntouched(cookies[1..], t', exchange, k);
    }
  }

  /** A refreshed entry always has its own key as api key. */
  lemma {:induction false} RefreshAllShape(cookies: seq<string>, tokens: map<string, TokenInfo>,
                                           exchange: (string, string) -> Result<Grant, string>)
    ensures var r := RefreshAll(cookies, tokens, exchange);
            forall k :: k in r ==> r[k] == tokens[k] || r[k].apiKey == k
    decreases |cookies|
  {
    if |cookies| > 0 {
      var t' := RefreshOne(tokens, cookies[0], exchange);
      RefreshAllShape(cookies[1..], t', exchange);
    }
  }

  /** One run of the job: a fresh snapshot (which also drops expired
      lockouts), then a refresh of each of its cookies. */
  function UpdateCookieTokens(qd: seq<string>, locks: Lockouts, now: int, tokens: map<string, TokenInfo>,
                              exchange: (string, string) -> Result<Grant, string>): (r: (map<string, TokenInfo>, Lockouts))
    ensures r.0.Keys == tokens.Keys
  {
    var (m, locks') := NewCookieManager(qd, locks, now);
    (RefreshAll(m.cookies, tokens, exchange), locks')
  }

  /** Only cookies in the snapshot are refreshed: a key named by no eligible
      cookie (for example one whose cookies are all locked) is untouched. */
  lemma RefreshOnlySnapshot(qd: seq<string>, locks: Lockouts, now: int, tokens: map<string, TokenInfo>,
                            exchange: (string, string) -> Result<Grant, string>, k: string)
    requires k in tokens
    requires forall c :: c in EligibleRef(qd, locks, now) ==> KeyOf(c) != k
    ensures UpdateCookieTokens(qd, locks, now, tokens, exchange).0[k] == tokens[k]
  {
    ScanMatchesRef(qd, locks, now);
    var cookies := NewCookieManager(qd, locks, now).0.cookies;
    assert forall i :: 0 <= i < |cookies| ==> cookies[i] in EligibleRef(qd, locks, now);
    RefreshAllUntouched(cookies, tokens, exchange, k);
  }

  // ---------------------------------------------------------------------
  // Next run

  /** Wall-clock time in nanoseconds; minutes start at multiples of this.
      Time zones whose offset is not a whole number of hours are not
      modelled. */
  const NanosPerMinute := 60 * NanosPerSecond

  function MinuteOfHour(t: int): int {
    (t / NanosPerMinute) % 60
  }

  /** The minutes the job waits for: 10 - minute % 10, or 10 on a
      multiple of ten. */
  function MinutesToAdd(now: int): (a: int)
    ensures 1 <= a <= 10
  {
    var remainder := MinuteOfHour(now) % 10;
    if remainder == 0 then 10 else 10 - remainder
  }

  /** The next run: now plus those minutes, truncated to the minute. */
  function NextRun(now: int): int {
    var added := now + MinutesToAdd(now) * NanosPerMinute;
    added - added % NanosPerMinute
  }

  /** A ten-minute mark: a whole minute whose minute of the hour is a
      multiple of ten. */
  predicate TenMinuteMark(t: int) {
    t % NanosPerMinute == 0 && MinuteOfHour(t) % 10 == 0
  }

  /** A ten-minute mark is a whole minute whose minute count is a
      multiple of ten. */
  lemma TenMinuteMarkIff(t: int)
    ensures TenMinuteMark(t) <==> t % NanosPerMinute == 0 && (t / NanosPerMinute) % 10 == 0
  {
    ModSixtyTen(t / NanosPerMinute);
  }

  lemma ModSixtyTen(x: int)
    ensures (x % 60) % 10 == x % 10
  {
    var q := x / 60;
    assert x == 60 * q + x % 60;
    assert 60 * q == 10 * (6 * q);
  }

  /** Adding the minutes reaches a multiple of ten and passes none. */
  lemma MinutesToAddReaches(now: int)
    ensures var m := now / NanosPerMinute;
            && (m + MinutesToAdd(now)) % 10 == 0
            && forall b :: 0 < b < MinutesToAdd(now) ==> TensDigitGap(m, b) != 0
  {
    ModSixtyTen(now / NanosPerMinute);
  }

  /** The last digit of the minute count `b` minutes after minute `m`. */
  function TensDigitGap(m: int, b: int): int {
    (m + b) % 10
  }

  lemma NextRunValue(now: int)
    ensures NextRun(now) == (now / NanosPerMinute + MinutesToAdd(now)) * NanosPerMinute
  {
    var m := now / NanosPerMinute;
    var a := MinutesToAdd(now);
    DivModUnique(now + a * NanosPerMinute, m + a, now % NanosPerMinute);
  }

  /** The next run is the first ten-minute mark strictly after now, so the
      sleep is positive and at most ten minutes. */
  lemma NextRunIsNextMark(now: int)
    ensures TenMinuteMark(NextRun(now))
    ensures now < NextRun(now) <= now + 10 * NanosPerMinute
    ensures forall t :: now < t < NextRun(now) ==> !TenMinuteMark(t)
  {
    var m := now / NanosPerMinute;
    var a := MinutesToAdd(now);
    var next := NextRun(now);
    NextRunValue(now);
    MinutesToAddReaches(now);
    DivModUnique(next, m + a, 0);
    TenMinuteMarkIff(next);
    forall t | now < t < next ensures !TenMinuteMark(t) {
      NoMarkBefore(now, t);
    }
  }

  lemma NoMarkBefore(now: int, t: int)
    requires now < t < NextRun(now)
    ensures !TenMinuteMark(t)
  {
    var m := now / NanosPerMinute;
    var a := MinutesToAdd(now);
    NextRunValue(now);
    MinutesToAddReaches(now);
    TenMinuteMarkIff(t);
    if t % NanosPerMinute == 0 {
      var j := t / NanosPerMinute;
      DivModUnique(t, j, 0);
      assert m < j < m + a;
      assert TensDigitGap(m, j - m) != 0;
    }
  }

  /** Quotient and remainder by a minute are determined by any
      decomposition. */
  lemma DivModUnique(x: int, q: int, r: int)
    requires 0 <= r < NanosPerMinute && x == q * NanosPerMinute + r
    ensures x / NanosPerMinute == q && x % NanosPerMinute == r
  {
  }
}
