/** The browser-impersonating transport (cycletls/index.go): request
    preparation with header ordering and forced headers, the fixed defaults of
    `Do`/`DoSSE`, response-header folding, and the line-oriented server-sent
    event decoder. The TLS client, the network and decompression are foreign:
    their outcomes arrive as `Exchange`/`SseExchange` values. */
module Transport {
  import opened Wrappers
  import opened Str
  import opened Headers

  /** The client options the model inspects. `headers` lists the caller's
      header map in one Go iteration order (names are distinct). */
  datatype Options = Options(
    url: string,
    httpMethod: string,
    headers: seq<(string, string)>,
    body: string,
    ja3: string,
    userAgent: string,
    proxy: string,
    timeout: int,
    headerOrder: seq<string>)

  const DefaultJa3: string := "771,4865-4866-4867-49195-49199-49196-49200-52393-52392-49171-49172-156-157-47-53,18-35-65281-45-17513-27-65037-16-10-11-5-13-0-43-23-51,29-23-24,0"
  const DefaultUserAgent: string := "Mozilla/5.0 (Macintosh; Intel Mac OS X 10_15_7) AppleWebKit/537.36 (KHTML, like Gecko) Chrome/121.0.0.0 Safari/537.36"
  /** The request id `Do` and `DoSSE` attach to every result. */
  const SingleShotId: string := "cycleTLSRequest"

  // ---------------------------------------------------------------------
  // processRequest

  /** The request processRequest hands to the client. */
  datatype Prepared = Prepared(
    httpMethod: string,
    url: string,
    body: string,
    headers: map<string, string>,
    orderKey: seq<string>,
    options: Options)

  function SetHeader(h: map<string, string>, k: string, v: string): map<string, string> {
    h[CanonicalKey(k) := v]
  }

  /** The loop copying the caller's headers; "Content-Length" (exact
      spelling) is skipped. */
  function CopyHeaders(h: map<string, string>, headers: seq<(string, string)>): map<string, string>
    decreases |headers|
  {
    if |headers| == 0 then h
    else
      var h' := if headers[0].0 != "Content-Length" then SetHeader(h, headers[0].0, headers[0].1) else h;
      CopyHeaders(h', headers[1..])
  }

  /** Index of the last copied caller header whose canonical name is `name`. */
  function LastCopied(headers: seq<(string, string)>, name: string): (r: Option<nat>)
    ensures r.Some? ==> r.value < |headers| && headers[r.value].0 != "Content-Length"
                        && CanonicalKey(headers[r.value].0) == name
    ensures r.Some? ==> forall i :: r.value < i < |headers| ==>
                          headers[i].0 == "Content-Length" || CanonicalKey(headers[i].0) != name
    ensures r.None? ==> forall i :: 0 <= i < |headers| ==>
                          headers[i].0 == "Content-Length" || CanonicalKey(headers[i].0) != name
  {
    if |headers| == 0 then None
    else
      var last := |headers| - 1;
      if headers[last].0 != "Content-Length" && CanonicalKey(headers[last].0) == name then Some(last)
      else
        var r := LastCopied(headers[..last], name);
        assert forall i :: 0 <= i < last ==> headers[..last][i] == headers[i];
        r
  }

  lemma {:induction false} CopyHeadersSpec(h: map<string, string>, headers: seq<(string, string)>, name: string)
    ensures var r := CopyHeaders(h, headers);
            match LastCopied(headers, name)
            case Some(i) => name in r && r[name] == headers[i].1
            case None => (name in r <==> name in h) && (name in h ==> r[name] == h[name])
    decreases |headers|
  {
    if |headers| > 0 {
      var last := |headers| - 1;
      var front := headers[..last];
      CopyHeadersSnoc(h, front, headers[last]);
      assert headers == front + [headers[last]];
      CopyHeadersSpec(h, front, name);
    }
  }

  lemma {:induction false} CopyHeadersSnoc(h: map<string, string>, front: seq<(string, string)>, kv: (string, string))
    ensures CopyHeaders(h, front + [kv]) ==
            var m := CopyHeaders(h, front);
            if kv.0 != "Content-Length" then SetHeader(m, kv.0, kv.1) else m
    decreases |front|
  {
    if |front| > 0 {
      var h' := if front[0].0 != "Content-Length" then SetHeader(h, front[0].0, front[0].1) else h;
      assert (front + [kv])[1..] == front[1..] + [kv];
      CopyHeadersSnoc(h', front[1..], kv);
    }
  }

  /** The two forced headers land under their canonical names, whatever
      the caller's headers put there before. */
  lemma ForcedHeadersSet(h: map<string, string>, host: string, ua: string)
    ensures var w := SetHeader(SetHeader(h, "Host", host), "user-agent", ua);
            && "Host" in w && w["Host"] == host && "User-Agent" in w && w["User-Agent"] == ua
            && forall name :: name != "Host" && name != "User-Agent" ==>
                 (name in w <==> name in h) && (name in h ==> w[name] == h[name])
  {
    ForcedHost();
    ForcedUserAgent();
    SetTwice(h, "Host", host, "user-agent", ua, "Host", "User-Agent");
  }

  /** Two Sets under different canonical names: both values land, and
      nothing else changes. */
  lemma SetTwice(h: map<string, string>, k1: string, v1: string, k2: string, v2: string, c1: string, c2: string)
    requires CanonicalKey(k1) == c1 && CanonicalKey(k2) == c2 && c1 != c2
    ensures var w := SetHeader(SetHeader(h, k1, v1), k2, v2);
            && c1 in w && w[c1] == v1 && c2 in w && w[c2] == v2
            && forall name :: name != c1 && name != c2 ==>
                 (name in w <==> name in h) && (name in h ==> w[name] == h[name])
  {
  }

  /** processRequest: `host` is the URL authority as net/url parses it. */
  function ProcessRequest(o: Options, host: string): (p: Prepared)
    ensures "Host" in p.headers && p.headers["Host"] == host
    ensures "User-Agent" in p.headers && p.headers["User-Agent"] == o.userAgent
    ensures p.httpMethod == Upper(o.httpMethod) && p.body == o.body && p.url == o.url
  {
    var copied := CopyHeaders(map[], o.headers);
    ForcedHeadersSet(copied, host, o.userAgent);
    var wire := SetHeader(SetHeader(copied, "Host", host), "user-agent", o.userAgent);
    Prepared(Upper(o.httpMethod), o.url, o.body, wire, OrderKey(EffectiveOrder(o.headerOrder), o.headers), o)
  }

  /** Every header name other than Host and User-Agent is on the wire exactly
      when some caller header other than an exact "Content-Length" has that
      canonical name, and it carries the value of the last such header in
      iteration order. */
  lemma WireHeaderContents(o: Options, host: string, name: string)
    requires name != "Host" && name != "User-Agent"
    ensures var p := ProcessRequest(o, host);
            match LastCopied(o.headers, name)
            case Some(i) => name in p.headers && p.headers[name] == o.headers[i].1
            case None => name !in p.headers
  {
    CopyHeadersSpec(map[], o.headers, name);
    ForcedHeadersSet(CopyHeaders(map[], o.headers), host, o.userAgent);
  }

  /** A caller "Content-Length" header never reaches the wire: unless some
      differently spelled caller name canonicalises to it, the wire request has
      no Content-Length header. */
  lemma ContentLengthNeverCopied(o: Options, host: string)
    requires forall i :: 0 <= i < |o.headers| && CanonicalKey(o.headers[i].0) == "Content-Length" ==>
               o.headers[i].0 == "Content-Length"
    ensures "Content-Length" !in ProcessRequest(o, host).headers
  {
    WireHeaderContents(o, host, "Content-Length");
  }

  // ---------------------------------------------------------------------
  // Do / DoSSE defaults

  /** What `Do` and `DoSSE` do to the options before preparing the request. */
  function WithDefaults(o: Options, url: string, httpMethod: string): (r: Options)
    ensures r.url == url && r.httpMethod == httpMethod
    ensures r.ja3 != "" && r.userAgent != ""
    ensures o.ja3 != "" ==> r.ja3 == o.ja3
    ensures o.ja3 == "" ==> r.ja3 == DefaultJa3
    ensures o.userAgent != "" ==> r.userAgent == o.userAgent
    ensures o.userAgent == "" ==> r.userAgent == DefaultUserAgent
    ensures r.headers == o.headers && r.body == o.body && r.proxy == o.proxy
    ensures r.timeout == o.timeout && r.headerOrder == o.headerOrder
  {
    o.(url := url, httpMethod := httpMethod,
       ja3 := if o.ja3 == "" then DefaultJa3 else o.ja3,
       userAgent := if o.userAgent == "" then DefaultUserAgent else o.userAgent)
  }

  lemma WithDefaultsIdempotent(o: Options, url: string, httpMethod: string)
    ensures WithDefaults(WithDefaults(o, url, httpMethod), url, httpMethod) == WithDefaults(o, url, httpMethod)
  {
  }

  // ---------------------------------------------------------------------
  // dispatcher

  /** What the client reports for one single-shot exchange. `errStatus` and
      `errMsg` are what the foreign parseError makes of the failure, `body`
      is the decompressed body text. */
  datatype Exchange =
    | TransportFailure(errStatus: int, errMsg: string, errText: string)
    | BodyReadFailure(errText: string)
    | Received(status: int, respHeaders: map<string, seq<string>>, body: string, redirectedTo: Option<string>)

  datatype Response = Response(
    requestId: string, status: int, body: string, headers: map<string, string>, finalUrl: string)

  /** The folded value of one response header. */
  function FoldValues(name: string, values: seq<string>): string
    requires name == "Set-Cookie" || |values| > 0
  {
    if name == "Set-Cookie" then Join(values, "/,/") else values[|values| - 1]
  }

  ghost predicate Folded(h: map<string, seq<string>>, r: map<string, string>) {
    && (forall name :: name in r <==> name in h && (name == "Set-Cookie" || |h[name]| > 0))
    && (forall name :: name in r ==> r[name] == FoldValues(name, h[name]))
  }

  /** The folding loop of `dispatcher`, walking the header map in the
      iteration order `names`. */
  method FoldHeaders(h: map<string, seq<string>>, names: seq<string>) returns (r: map<string, string>)
    requires forall name :: name in h <==> name in names
    requires NoDup(names)
    ensures Folded(h, r)
  {
    r := map[];
    var n := 0;
    while n < |names|
      invariant 0 <= n <= |names|
      invariant forall name :: name in r <==>
                  name in names[..n] && (name == "Set-Cookie" || |h[name]| > 0)
      invariant forall name :: name in r ==> r[name] == FoldValues(name, h[name])
    {
      var name := names[n];
      var values := h[name];
      if name == "Set-Cookie" {
        r := r[name := Join(values, "/,/")];
      } else {
        var k := 0;
        while k < |values|
          invariant 0 <= k <= |values|
          invariant forall other :: other != name ==> (other in r <==>
                      other in names[..n] && (other == "Set-Cookie" || |h[other]| > 0))
          invariant forall other :: other in r && other != name ==> r[other] == FoldValues(other, h[other])
          invariant name in r <==> k > 0
          invariant k > 0 ==> r[name] == values[k - 1]
          invariant name !in names[..n]
        {
          r := r[name := values[k]];
          k := k + 1;
        }
      }
      assert names[..n + 1] == names[..n] + [name];
      n := n + 1;
    }
    assert names[..n] == names;
  }

  /** dispatcher: a transport failure becomes a response with the parsed
      status, the message "<msg>-> \n<err>", no headers and no error; a body
      read failure becomes an error with an empty response. */
  function Dispatch(o: Options, ex: Exchange): (r: (Response, Option<string>))
    ensures ex.TransportFailure? ==>
              r.1.None? && r.0.status == ex.errStatus && r.0.headers == map[]
              && r.0.body == ex.errMsg + "-> \n" + ex.errText && r.0.finalUrl == o.url
    ensures ex.BodyReadFailure? ==> r.1 == Some(ex.errText) && r.0 == Response("", 0, "", map[], "")
    ensures ex.Received? ==>
              r.1.None? && r.0.status == ex.status && r.0.body == ex.body && Folded(ex.respHeaders, r.0.headers)
              && r.0.finalUrl == ex.redirectedTo.GetOr(o.url)
  {
    match ex
    case TransportFailure(st, msg, text) =>
      (Response(SingleShotId, st, msg + "-> \n" + text, map[], o.url), None)
    case BodyReadFailure(text) =>
      (Response("", 0, "", map[], ""), Some(text))
    case Received(st, hs, body, redirected) =>
      var folded := map name | name in hs && (name == "Set-Cookie" || |hs[name]| > 0) :: FoldValues(name, hs[name]);
      (Response(SingleShotId, st, body, folded, redirected.GetOr(o.url)), None)
  }

  /** Do: defaults, preparation, then one exchange. */
  function Do(url: string, o: Options, httpMethod: string, host: string, ex: Exchange): (r: (Prepared, Response, Option<string>))
    ensures r.0.options.ja3 != "" && "User-Agent" in r.0.headers && r.0.headers["User-Agent"] == r.0.options.userAgent
    ensures ex.TransportFailure? ==> r.2.None? && r.1.finalUrl == url
  {
    var o' := WithDefaults(o, url, httpMethod);
    var p := ProcessRequest(o', host);
    var (resp, err) := Dispatch(o', ex);
    (p, resp, err)
  }

}
