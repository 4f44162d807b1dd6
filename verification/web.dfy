/** The HTTP edge: route-prefix normalisation (router/api-router.go),
    the NoRoute fallback (router/web.go), the API-secret and backend-secret
    checks (middleware/auth.go) and the IP blacklist
    (middleware/ip-list.go). Secrets and lists come from the environment as
    plain strings. */
module Web {
  import opened Wrappers
  import opened Str

  // ---------------------------------------------------------------------
  // Route prefix

  /** ProcessPath: "" stays ""; otherwise a leading "/" is ensured and one
      trailing "/" is dropped. */
  function ProcessPath(path: string): (r: string)
    ensures path == "" ==> r == ""
    ensures r == "" || r[0] == '/'
  {
    if path == "" then ""
    else
      var p := if HasPrefix(path, "/") then path else "/" + path;
      if HasSuffix(p, "/") then p[..|p| - 1] else p
  }

  /** Adding back the single dropped "/" gives the slash-led path. */
  lemma ProcessPathInverse(path: string)
    requires path != ""
    ensures var p := if HasPrefix(path, "/") then path else "/" + path;
            ProcessPath(path) + (if HasSuffix(p, "/") then "/" else "") == p
  {
    var p := if HasPrefix(path, "/") then path else "/" + path;
    if HasSuffix(p, "/") {
      assert p[..|p| - 1] + "/" == p;
    }
  }

  /** A slash-led path without a trailing slash is unchanged; "/" becomes
      ""; only one trailing slash goes, so the function is not idempotent. */
  lemma ProcessPathCases(path: string)
    ensures HasPrefix(path, "/") && !HasSuffix(path, "/") ==> ProcessPath(path) == path
    ensures ProcessPath("/") == ""
    ensures ProcessPath("a//") == "/a/"
    ensures ProcessPath(ProcessPath("a//")) == "/a"
  {
    assert ("/" + "a//")[..3] == "/a/";
    assert "/a/"[..2] == "/a";
  }

  /** The group every OpenAI route hangs from. */
  function V1Prefix(routePrefix: string): (r: string)
    ensures HasSuffix(r, "/v1") && r[0] == '/'
  {
    var p := ProcessPath(routePrefix);
    assert (p + "/v1")[|p + "/v1"| - 3..] == "/v1";
    p + "/v1"
  }

  // ---------------------------------------------------------------------
  // NoRoute

  datatype Fallback =
    | ApiNotFound(path: string)   // 404 with a JSON body naming the path
    | AssetNotFound               // bare 404
    | IndexPage                   // 200, index.html, Cache-Control: no-cache

  function NoRoute(path: string): (r: Fallback)
    ensures r.ApiNotFound? ==> r.path == path
  {
    if HasPrefix(path, "/v1") || HasPrefix(path, "/api") then ApiNotFound(path)
    else if Contains(path, ".") then AssetNotFound
    else IndexPage
  }

  /** The three outcomes, by the raw prefix test and the '.' test. */
  lemma NoRouteCases(path: string)
    ensures NoRoute(path).ApiNotFound? <==> HasPrefix(path, "/v1") || HasPrefix(path, "/api")
    ensures NoRoute(path) == AssetNotFound <==>
              !HasPrefix(path, "/v1") && !HasPrefix(path, "/api") && exists i :: 0 <= i < |path| && path[i] == '.'
    ensures NoRoute(path) == IndexPage <==>
              !HasPrefix(path, "/v1") && !HasPrefix(path, "/api") && forall i :: 0 <= i < |path| ==> path[i] != '.'
  {
    ContainsIff(path, ".");
    if exists i :: 0 <= i < |path| && path[i] == '.' {
      var i :| 0 <= i < |path| && path[i] == '.';
      assert OccursAt(path, ".", i) by { assert path[i..i + 1] == [path[i]]; }
    }
    forall i | OccursAt(path, ".", i) ensures 0 <= i < |path| && path[i] == '.' {
      assert path[i..i + 1][0] == path[i];
    }
  }

  /** The API test is a plain prefix test: "/v1beta" and "/apix" are API
      paths, even with a '.'. */
  lemma NoRouteRawPrefix()
    ensures NoRoute("/v1beta") == ApiNotFound("/v1beta")
    ensures NoRoute("/apix") == ApiNotFound("/apix")
    ensures NoRoute("/v1/app.js") == ApiNotFound("/v1/app.js")
  {
    assert "/v1beta"[..3] == "/v1";
    assert "/apix"[..4] == "/api";
    assert "/v1/app.js"[..3] == "/v1";
  }

  /** Outside the API prefixes, a '.' makes a missing asset and anything
      else is the single-page app. */
  lemma NoRouteAssetOrPage()
    ensures NoRoute("/app.js") == AssetNotFound
    ensures NoRoute("/chat") == IndexPage
  {
    NoRouteCases("/app.js");
    NoRouteCases("/chat");
    assert !HasPrefix("/app.js", "/v1") by { assert "/app.js"[..3][1] == 'a'; }
    assert !HasPrefix("/app.js", "/api") by { assert "/app.js"[..4][3] == 'p'; }
    assert 0 <= 4 < |"/app.js"| && "/app.js"[4] == '.';
    assert "/chat"[..3][1] == 'c' && "/chat"[..4][1] == 'c';
  }

  // ---------------------------------------------------------------------
  // Authentication

  /** strings.Replace(secret, "Bearer ", "", 1) */
  function StripBearer(h: string): (r: string)
    ensures Index(h, "Bearer ").None? ==> r == h
    ensures |r| == |h| || |r| == |h| - 7
  {
    ReplaceFirst(h, "Bearer ", "")
  }

  /** The usual header loses its scheme; only the first occurrence goes,
      wherever it is. */
  lemma StripBearerCases(token: string)
    ensures StripBearer("Bearer " + token) == token
    ensures StripBearer("Bearer Bearer x") == "Bearer x"
    ensures StripBearer("xBearer y") == "xy"
  {
    assert OccursAt("Bearer " + token, "Bearer ", 0) by { assert ("Bearer " + token)[..7] == "Bearer "; }
    assert OccursAt("Bearer Bearer x", "Bearer ", 0);
    assert "xBearer y"[0..7][0] == 'x';
    assert OccursAt("xBearer y", "Bearer ", 1);
  }

  /** isValidSecret: with no API_SECRET everything is accepted; otherwise
      the secret must equal one comma-separated entry exactly. */
  predicate IsValidSecret(apiSecret: string, secret: string) {
    apiSecret == "" || secret in Split(apiSecret, ",")
  }

  lemma IsValidSecretIff(apiSecret: string, secret: string)
    ensures apiSecret == "" ==> IsValidSecret(apiSecret, secret)
    ensures apiSecret != "" ==>
              (IsValidSecret(apiSecret, secret) <==> exists i :: 0 <= i < |Split(apiSecret, ",")| && Split(apiSecret, ",")[i] == secret)
  {
    var parts := Split(apiSecret, ",");
    if secret in parts {
      var i :| 0 <= i < |parts| && parts[i] == secret;
      assert IsValidSecret(apiSecret, secret);
      assert exists j :: 0 <= j < |parts| && parts[j] == secret;
    } else {
      assert forall j :: 0 <= j < |parts| ==> parts[j] != secret;
      assert apiSecret != "" ==> !IsValidSecret(apiSecret, secret);
    }
  }

  /** There is no trimming: a space after the comma is part of the entry. */
  lemma SecretsNotTrimmed()
    ensures IsValidSecret("k1,k2", "k2")
    ensures !IsValidSecret("k1, k2", "k2")
  {
    CommaSplit("k1,k2", 2);
    assert "k1,k2"[3..] == "k2";
    CommaSplit("k2", 2);
    CommaSplit("k1, k2", 2);
    assert "k1, k2"[3..] == " k2";
    CommaSplit(" k2", 3);
  }

  /** Split on "," when the first comma is at `i` (or `i == |s|` for none). */
  lemma CommaSplit(s: string, i: nat)
    requires i <= |s|
    requires forall j :: 0 <= j < i ==> s[j] != ','
    requires i < |s| ==> s[i] == ','
    ensures i == |s| ==> Split(s, ",") == [s]
    ensures i < |s| ==> Split(s, ",") == [s[..i]] + Split(s[i + 1..], ",")
  {
    forall j | 0 <= j < i ensures !OccursAt(s, ",", j) {
      OccursSingleIff(s, ',', j);
    }
    OccursSingleIff(s, ',', i);
    if i == |s| {
      forall j ensures !OccursAt(s, ",", j) { OccursSingleIff(s, ',', j); }
    }
  }

  /** isValidBackendSecret, which is true when the request must be refused. */
  predicate BackendRejects(backendSecret: string, secret: string) {
    backendSecret != "" && backendSecret != secret
  }

  datatype AuthVerdict = Unauthorized | Proceed(authorization: string)

  /** authHelperForOpenai: the Authorization header is left as it is. */
  function OpenAIAuth(apiSecret: string, authorization: string): (r: AuthVerdict)
    ensures r.Proceed? ==> r.authorization == authorization
  {
    if IsValidSecret(apiSecret, StripBearer(authorization)) then Proceed(authorization) else Unauthorized
  }

  /** authHelperForBackend: with no BACKEND_SECRET the header is blanked. */
  function BackendAuth(backendSecret: string, authorization: string): (r: AuthVerdict)
    ensures r.Proceed? && backendSecret == "" ==> r.authorization == ""
    ensures r.Proceed? && backendSecret != "" ==> r.authorization == authorization
  {
    if BackendRejects(backendSecret, StripBearer(authorization)) then Unauthorized
    else if backendSecret == "" then Proceed("")
    else Proceed(authorization)
  }

  /** Both checks in terms of the presented secret. */
  lemma AuthVerdicts(apiSecret: string, backendSecret: string, token: string)
    ensures OpenAIAuth("", "Bearer " + token).Proceed?
    ensures OpenAIAuth(apiSecret, "Bearer " + token).Proceed? <==> IsValidSecret(apiSecret, token)
    ensures BackendAuth(backendSecret, "Bearer " + token) == Unauthorized <==>
              backendSecret != "" && backendSecret != token
    ensures BackendAuth("", "Bearer " + token) == Proceed("")
  {
    StripBearerCases(token);
  }

  // ---------------------------------------------------------------------
  // IP blacklist

  /** The configured list: IP_BLACK_LIST split on ","; unset is "". */
  function IpBlackList(env: string): (r: seq<string>)
    ensures |r| >= 1
  {
    Split(env, ",")
  }

  /** The loop of IPBlacklistMiddleware: the first entry that trims to the
      client IP blocks it. */
  predicate Blacklisted(list: seq<string>, ip: string) {
    |list| > 0 && (TrimSpace(list[0]) == ip || Blacklisted(list[1..], ip))
  }

  lemma {:induction false} BlacklistedIff(list: seq<string>, ip: string)
    ensures Blacklisted(list, ip) <==> exists i :: 0 <= i < |list| && TrimSpace(list[i]) == ip
  {
    if |list| > 0 {
      BlacklistedIff(list[1..], ip);
      if exists i :: 0 <= i < |list| && TrimSpace(list[i]) == ip {
        var i :| 0 <= i < |list| && TrimSpace(list[i]) == ip;
        if i > 0 { assert list[1..][i - 1] == list[i]; }
      }
    }
  }

  /** Order and repetition of the entries do not matter. */
  lemma BlacklistSetSemantics(l1: seq<string>, l2: seq<string>, ip: string)
    requires forall e :: e in l1 <==> e in l2
    ensures Blacklisted(l1, ip) == Blacklisted(l2, ip)
  {
    BlacklistedIff(l1, ip);
    BlacklistedIff(l2, ip);
    if Blacklisted(l1, ip) {
      var i :| 0 <= i < |l1| && TrimSpace(l1[i]) == ip;
      assert l1[i] in l2;
    }
    if Blacklisted(l2, ip) {
      var i :| 0 <= i < |l2| && TrimSpace(l2[i]) == ip;
      assert l2[i] in l1;
    }
  }

  /** Unset, the list is [""] and only an empty client IP is blocked. */
  lemma UnsetBlacklist(ip: string)
    ensures IpBlackList("") == [""]
    ensures Blacklisted(IpBlackList(""), ip) <==> ip == ""
  {
    assert forall j :: !OccursAt("", ",", j);
  }

  datatype IpVerdict = Forbidden | Pass

  /** IPBlacklistMiddleware: 403 {"error":"Forbidden"} or on to the next handler. */
  function IpBlacklistMiddleware(env: string, clientIp: string): (r: IpVerdict)
    ensures r == Forbidden <==> exists i :: 0 <= i < |IpBlackList(env)| && TrimSpace(IpBlackList(env)[i]) == clientIp
  {
    BlacklistedIff(IpBlackList(env), clientIp);
    if Blacklisted(IpBlackList(env), clientIp) then Forbidden else Pass
  }
}
