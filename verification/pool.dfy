/** The credential pool (common/config/config.go): cookie parsing at start-up,
    the timed lockout map, the per-request snapshot of eligible cookies, the
    random-then-round-robin pick, and permanent removal. Global variables
    become explicit state passed in and out; the clock is the parameter `now`;
    `rand.Intn(n)` is `seed % n`; the token exchange with the identity
    provider is the parameter `exchange`. */
module Pool {
  import opened Wrappers
  import opened Str
  import opened Seqs

  /** The lockout map: cookie -> instant its lockout expires. */
  type Lockouts = map<string, int>

  /** Default of RATE_LIMIT_COOKIE_LOCK_DURATION, in seconds. */
  const DefaultLockSeconds: int := 600

  /** The clock counts nanoseconds, as Go's `time.Time` does. */
  const NanosPerSecond: int := 1_000_000_000

  /** The expiry `time.Now().Add(time.Duration(lockSeconds) * time.Second)`
      of a lockout taken at `now`. */
  function LockExpiry(now: int, lockSeconds: int): int {
    now + lockSeconds * NanosPerSecond
  }

  const NoCookiesAvailable: string := "no cookies available"

  /** AddRateLimitCookie: store (or overwrite) one expiry. */
  function AddRateLimitCookie(locks: Lockouts, cookie: string, expiry: int): (r: Lockouts)
    ensures cookie in r && r[cookie] == expiry
    ensures forall c :: c != cookie ==> (c in r <==> c in locks)
    ensures forall c :: c != cookie && c in locks ==> r[c] == locks[c]
  {
    locks[cookie := expiry]
  }

  // ---------------------------------------------------------------------
  // InitQDCookies

  datatype TokenInfo = TokenInfo(apiKey: string, refreshToken: string, accessToken: string)

  /** What a successful token exchange returns. */
  datatype Grant = Grant(refreshToken: string, accessToken: string)

  /** The token map key of a cookie: its text before the first '='. */
  function KeyOf(cookie: string): (k: string)
    ensures HasPrefix(cookie, k)
  {
    Split(cookie, "=")[0]
  }

  lemma KeyOfIsTextBeforeEquals(cookie: string)
    ensures Index(cookie, "=").None? ==> KeyOf(cookie) == cookie
    ensures Index(cookie, "=").Some? ==> KeyOf(cookie) == cookie[..Index(cookie, "=").value]
  {
  }

  /** A cookie InitQDCookies accepts: exactly one '='. */
  predicate WellFormed(cookie: string) {
    |Split(cookie, "=")| == 2
  }

  /** The state InitQDCookies leaves behind (the cookie list and the token
      map are globals, so a failure part-way keeps what was done so far) and
      its error, if any. */
  datatype InitOutcome = InitOutcome(cookies: seq<string>, tokens: map<string, TokenInfo>, err: Option<string>)

  function InitEach(pieces: seq<string>, acc: seq<string>, tokens: map<string, TokenInfo>,
                    exchange: (string, string) -> Result<Grant, string>): (r: InitOutcome)
    ensures |acc| <= |r.cookies| <= |acc| + |pieces|
    ensures r.err.None? <==> |r.cookies| == |acc| + |pieces|
    decreases |pieces|
  {
    if |pieces| == 0 then InitOutcome(acc, tokens, None)
    else
      var cookie := TrimSpace(pieces[0]);
      var split := Split(cookie, "=");
      if |split| != 2 then InitOutcome(acc, tokens, Some("invalid cookie format: " + cookie))
      else
        match exchange(split[0], split[1])
        case Err(e) =>
          InitOutcome(acc, tokens, Some("GetFirebaseToken err " + e + " , Req: {" + split[0] + " " + split[1] + "}"))
        case Ok(g) =>
          InitEach(pieces[1..], acc + [cookie], tokens[split[0] := TokenInfo(split[0], g.refreshToken, g.accessToken)], exchange)
  }

  /** InitEach only appends to the accepted list and only adds tokens. */
  lemma {:induction false} InitEachKeeps(pieces: seq<string>, acc: seq<string>, tokens: map<string, TokenInfo>,
                                         exchange: (string, string) -> Result<Grant, string>)
    ensures var r := InitEach(pieces, acc, tokens, exchange);
            && r.cookies[..|acc|] == acc
            && (forall k :: k in tokens ==> k in r.tokens)
    decreases |pieces|
  {
    if |pieces| > 0 {
      var cookie := TrimSpace(pieces[0]);
      var split := Split(cookie, "=");
      if |split| == 2 && exchange(split[0], split[1]).Ok? {
        var g := exchange(split[0], split[1]).value;
        var tokens' := tokens[split[0] := TokenInfo(split[0], g.refreshToken, g.accessToken)];
        var acc' := acc + [cookie];
        InitEachKeeps(pieces[1..], acc', tokens', exchange);
        var r := InitEach(pieces, acc, tokens, exchange);
        assert r == InitEach(pieces[1..], acc', tokens', exchange);
        assert r.cookies[..|acc|] == r.cookies[..|acc'|][..|acc|];
      }
    }
  }

  /** The entries InitEach accepts are the pieces, trimmed and in order. */
  lemma {:induction false} InitEachTrims(pieces: seq<string>, acc: seq<string>, tokens: map<string, TokenInfo>,
                                         exchange: (string, string) -> Result<Grant, string>)
    ensures var r := InitEach(pieces, acc, tokens, exchange);
            forall i :: |acc| <= i < |r.cookies| ==> r.cookies[i] == TrimSpace(pieces[i - |acc|])
    decreases |pieces|
  {
    var r := InitEach(pieces, acc, tokens, exchange);
    if |pieces| > 0 {
      var cookie := TrimSpace(pieces[0]);
      var split := Split(cookie, "=");
      if |split| == 2 && exchange(split[0], split[1]).Ok? {
        var g := exchange(split[0], split[1]).value;
        var tokens' := tokens[split[0] := TokenInfo(split[0], g.refreshToken, g.accessToken)];
        var acc' := acc + [cookie];
        var r' := InitEach(pieces[1..], acc', tokens', exchange);
        assert r == r';
        InitEachTrims(pieces[1..], acc', tokens', exchange);
        InitEachKeeps(pieces[1..], acc', tokens', exchange);
        assert r'.cookies[|acc|] == cookie by {
          assert r'.cookies[..|acc'|][|acc|] == acc'[|acc|];
        }
        forall i | |acc'| <= i < |r'.cookies|
          ensures r'.cookies[i] == TrimSpace(pieces[i - |acc|])
        {
          assert pieces[1..][i - |acc'|] == pieces[i - |acc|];
        }
      } else {
        assert r.cookies == acc;
      }
    }
  }

  /** Every entry of `cs` has exactly one '=' and a token under its key. */
  predicate AllKeyed(cs: seq<string>, tokens: map<string, TokenInfo>) {
    forall c :: c in cs ==> WellFormed(c) && KeyOf(c) in tokens
  }

  /** Every entry InitEach accepts has exactly one '=' and a token under
      its key. */
  lemma {:induction false} InitEachAccepted(pieces: seq<string>, acc: seq<string>, tokens: map<string, TokenInfo>,
                                            exchange: (string, string) -> Result<Grant, string>)
    ensures var r := InitEach(pieces, acc, tokens, exchange);
            |acc| <= |r.cookies| && AllKeyed(r.cookies[|acc|..], r.tokens)
    decreases |pieces|
  {
    if |pieces| > 0 {
      var cookie := TrimSpace(pieces[0]);
      var split := Split(cookie, "=");
      if |split| == 2 && exchange(split[0], split[1]).Ok? {
        var g := exchange(split[0], split[1]).value;
        var tokens' := tokens[split[0] := TokenInfo(split[0], g.refreshToken, g.accessToken)];
        var acc' := acc + [cookie];
        InitEachAccepted(pieces[1..], acc', tokens', exchange);
        InitEachKeeps(pieces[1..], acc', tokens', exchange);
        var r := InitEach(pieces[1..], acc', tokens', exchange);
        assert r.cookies[|acc|..] == [cookie] + r.cookies[|acc'|..] by {
          assert r.cookies[|acc|] == r.cookies[..|acc'|][|acc|];
        }
        assert KeyOf(cookie) == split[0] && split[0] in tokens';
      }
    }
  }

  /** An entry without exactly one '=' stops start-up with its own message,
      once every earlier entry was accepted. */
  lemma {:induction false} InitEachRejects(pieces: seq<string>, acc: seq<string>, tokens: map<string, TokenInfo>,
                                           exchange: (string, string) -> Result<Grant, string>, n: nat)
    requires n < |pieces|
    requires !WellFormed(TrimSpace(pieces[n]))
    requires forall i :: 0 <= i < n ==>
               var c := TrimSpace(pieces[i]);
               WellFormed(c) && exchange(Split(c, "=")[0], Split(c, "=")[1]).Ok?
    ensures InitEach(pieces, acc, tokens, exchange).err == Some("invalid cookie format: " + TrimSpace(pieces[n]))
    decreases n
  {
    if n > 0 {
      var c := TrimSpace(pieces[0]);
      var split := Split(c, "=");
      var g := exchange(split[0], split[1]).value;
      var tokens' := tokens[split[0] := TokenInfo(split[0], g.refreshToken, g.accessToken)];
      forall i | 0 <= i < n - 1
        ensures var c := TrimSpace(pieces[1..][i]);
                WellFormed(c) && exchange(Split(c, "=")[0], Split(c, "=")[1]).Ok?
      {
        assert pieces[1..][i] == pieces[i + 1];
      }
      InitEachRejects(pieces[1..], acc + [c], tokens', exchange, n - 1);
    }
  }

  /** InitQDCookies over the value of QD_COOKIE. */
  function InitQDCookies(cookieStr: string, tokens: map<string, TokenInfo>,
                         exchange: (string, string) -> Result<Grant, string>): InitOutcome
  {
    if cookieStr == "" then InitOutcome([], tokens, None)
    else InitEach(Split(cookieStr, ","), [], tokens, exchange)
  }

  /** On success the pool is the comma-separated entries, trimmed, in order;
      each has exactly one '=' and a token entry under its key. */
  lemma InitQDCookiesSuccess(cookieStr: string, tokens: map<string, TokenInfo>,
                             exchange: (string, string) -> Result<Grant, string>)
    requires cookieStr != ""
    requires InitQDCookies(cookieStr, tokens, exchange).err.None?
    ensures var r := InitQDCookies(cookieStr, tokens, exchange);
            var pieces := Split(cookieStr, ",");
            && |r.cookies| == |pieces|
            && forall i :: 0 <= i < |pieces| ==>
                 r.cookies[i] == TrimSpace(pieces[i]) && WellFormed(r.cookies[i]) && KeyOf(r.cookies[i]) in r.tokens
  {
    var r := InitQDCookies(cookieStr, tokens, exchange);
    InitEachTrims(Split(cookieStr, ","), [], tokens, exchange);
    InitEachAccepted(Split(cookieStr, ","), [], tokens, exchange);
    assert r.cookies[0..] == r.cookies;
    forall i | 0 <= i < |r.cookies|
      ensures WellFormed(r.cookies[i]) && KeyOf(r.cookies[i]) in r.tokens
    {
      assert r.cookies[i] in r.cookies;
    }
  }

  /** An entry without exactly one '=' stops start-up with its own message,
      once every entry before it was accepted. */
  lemma InitQDCookiesRejects(cookieStr: string, tokens: map<string, TokenInfo>,
                             exchange: (string, string) -> Result<Grant, string>, n: nat)
    requires cookieStr != ""
    requires n < |Split(cookieStr, ",")|
    requires !WellFormed(TrimSpace(Split(cookieStr, ",")[n]))
    requires forall i :: 0 <= i < n ==>
               var c := TrimSpace(Split(cookieStr, ",")[i]);
               WellFormed(c) && exchange(Split(c, "=")[0], Split(c, "=")[1]).Ok?
    ensures InitQDCookies(cookieStr, tokens, exchange).err
         == Some("invalid cookie format: " + TrimSpace(Split(cookieStr, ",")[n]))
  {
    InitEachRejects(Split(cookieStr, ","), [], tokens, exchange, n);
  }

  // ---------------------------------------------------------------------
  // NewCookieManager

  /** The snapshot a request works from. `currentIndex` is only ever 0, a
      value of `rand.Intn` or a remainder, so it is a natural number. */
  datatype Manager = Manager(cookies: seq<string>, currentIndex: nat)

  /** `c` is under a lockout that has not yet expired at `now`. */
  predicate Locked(locks: Lockouts, c: string, now: int) {
    c in locks && locks[c] > now
  }

  /** A cookie rate-limited at `now` stays locked for `lockSeconds` whole
      seconds, to the nanosecond, and is free again once they have passed. */
  lemma LockLastsDuration(locks: Lockouts, c: string, now: int, lockSeconds: int, t: int)
    ensures var l := AddRateLimitCookie(locks, c, LockExpiry(now, lockSeconds));
            && (now <= t < now + lockSeconds * NanosPerSecond ==> Locked(l, c, t))
            && (t >= now + lockSeconds * NanosPerSecond ==> !Locked(l, c, t))
  {
  }

  /** Reference definition: the trimmed non-empty entries not under an
      unexpired lockout, in order. */
  function EligibleRef(qd: seq<string>, locks: Lockouts, now: int): seq<string> {
    if |qd| == 0 then []
    else
      var c := TrimSpace(qd[0]);
      (if c != "" && !Locked(locks, c, now) then [c] else []) + EligibleRef(qd[1..], locks, now)
  }

  /** The loop of NewCookieManager: the eligible list, and the lockout map
      with the expired entries of listed cookies deleted. */
  function Scan(qd: seq<string>, locks: Lockouts, now: int): (r: (seq<string>, Lockouts))
    ensures forall k :: k in r.1 ==> k in locks && r.1[k] == locks[k]
    ensures forall k :: Locked(locks, k, now) ==> Locked(r.1, k, now)
    decreases |qd|
  {
    if |qd| == 0 then ([], locks)
    else
      var c := TrimSpace(qd[0]);
      if c == "" || Locked(locks, c, now) then Scan(qd[1..], locks, now)
      else
        var rest := Scan(qd[1..], locks - {c}, now);
        ([c] + rest.0, rest.1)
  }

  /** NewCookieManager over the pool `qd`. */
  function NewCookieManager(qd: seq<string>, locks: Lockouts, now: int): (r: (Manager, Lockouts))
    ensures r.0.currentIndex == 0
  {
    var (cookies, locks') := Scan(qd, locks, now);
    (Manager(cookies, 0), locks')
  }

  /** Deleting expired lockouts never changes which cookies are eligible. */
  lemma {:induction false} ScanMatchesRef(qd: seq<string>, locks: Lockouts, now: int)
    ensures Scan(qd, locks, now).0 == EligibleRef(qd, locks, now)
    decreases |qd|
  {
    if |qd| > 0 {
      var c := TrimSpace(qd[0]);
      if c == "" || Locked(locks, c, now) {
        ScanMatchesRef(qd[1..], locks, now);
      } else {
        var locks' := locks - {c};
        ScanMatchesRef(qd[1..], locks', now);
        EligibleRefSameLocks(qd[1..], locks, locks', now);
      }
    }
  }

  lemma {:induction false} EligibleRefSameLocks(qd: seq<string>, l1: Lockouts, l2: Lockouts, now: int)
    requires forall k :: Locked(l1, k, now) <==> Locked(l2, k, now)
    ensures EligibleRef(qd, l1, now) == EligibleRef(qd, l2, now)
    decreases |qd|
  {
    if |qd| > 0 {
      EligibleRefSameLocks(qd[1..], l1, l2, now);
    }
  }

  /** A cookie is in the snapshot exactly when some pool entry trims to it,
      it is not empty, and it is not under an unexpired lockout. */
  lemma {:induction false} EligibleMembers(qd: seq<string>, locks: Lockouts, now: int, x: string)
    ensures x in EligibleRef(qd, locks, now) <==>
              x != "" && !Locked(locks, x, now) && exists i :: 0 <= i < |qd| && TrimSpace(qd[i]) == x
    decreases |qd|
  {
    if |qd| > 0 {
      EligibleMembers(qd[1..], locks, now, x);
      var c := TrimSpace(qd[0]);
      var head := if c != "" && !Locked(locks, c, now) then [c] else [];
      assert EligibleRef(qd, locks, now) == head + EligibleRef(qd[1..], locks, now);
      if exists i :: 0 <= i < |qd| && TrimSpace(qd[i]) == x {
        var i :| 0 <= i < |qd| && TrimSpace(qd[i]) == x;
        if i > 0 { assert TrimSpace(qd[1..][i - 1]) == x; }
      }
      if exists i :: 0 <= i < |qd[1..]| && TrimSpace(qd[1..][i]) == x {
        var i :| 0 <= i < |qd[1..]| && TrimSpace(qd[1..][i]) == x;
        assert TrimSpace(qd[i + 1]) == x;
      }
    }
  }

  /** The lockouts NewCookieManager keeps: all but the expired entries of
      cookies it listed. */
  lemma {:induction false} ScanLockouts(qd: seq<string>, locks: Lockouts, now: int, k: string)
    ensures var l := Scan(qd, locks, now).1;
            k in l <==> k in locks && (Locked(locks, k, now) || k == "" ||
                                       forall i :: 0 <= i < |qd| ==> TrimSpace(qd[i]) != k)
    decreases |qd|
  {
    if |qd| > 0 {
      var c := TrimSpace(qd[0]);
      if c == "" || Locked(locks, c, now) {
        ScanLockouts(qd[1..], locks, now, k);
      } else {
        ScanLockouts(qd[1..], locks - {c}, now, k);
      }
      assert forall i :: 1 <= i < |qd| ==> qd[1..][i - 1] == qd[i];
    }
  }

  // ---------------------------------------------------------------------
  // Picking a cookie

  /** GetRandomCookie; `seed % n` stands for `rand.Intn(n)`. */
  function GetRandomCookie(m: Manager, seed: nat): (r: Result<(string, Manager), string>)
    ensures |m.cookies| == 0 <==> r.Err?
    ensures r.Err? ==> r.error == NoCookiesAvailable
    ensures r.Ok? ==> var (c, m') := r.value;
              && m'.cookies == m.cookies && m'.currentIndex < |m.cookies|
              && c == m.cookies[m'.currentIndex]
  {
    if |m.cookies| == 0 then Err(NoCookiesAvailable)
    else
      var i := seed % |m.cookies|;
      Ok((m.cookies[i], m.(currentIndex := i)))
  }

  /** Every entry of a non-empty snapshot can be the random pick. */
  lemma RandomPickCoversAll(m: Manager, i: nat)
    requires i < |m.cookies|
    ensures exists seed: nat :: GetRandomCookie(m, seed) == Ok((m.cookies[i], m.(currentIndex := i)))
  {
    assert GetRandomCookie(m, i) == Ok((m.cookies[i], m.(currentIndex := i)));
  }

  /** GetNextCookie: step the index cyclically and return that entry. */
  function GetNextCookie(m: Manager): (r: Result<(string, Manager), string>)
    ensures |m.cookies| == 0 <==> r.Err?
    ensures r.Err? ==> r.error == NoCookiesAvailable
    ensures r.Ok? ==> var (c, m') := r.value;
              && m'.cookies == m.cookies && m'.currentIndex < |m.cookies|
              && c == m.cookies[m'.currentIndex]
              && (m.currentIndex + 1 < |m.cookies| ==> m'.currentIndex == m.currentIndex + 1)
              && (m.currentIndex + 1 == |m.cookies| ==> m'.currentIndex == 0)
  {
    if |m.cookies| == 0 then Err(NoCookiesAvailable)
    else
      var i := (m.currentIndex + 1) % |m.cookies|;
      Ok((m.cookies[i], m.(currentIndex := i)))
  }

  /** The snapshot after `k` calls of GetNextCookie. */
  function Advance(m: Manager, k: nat): (m': Manager)
    requires |m.cookies| > 0
    ensures m'.cookies == m.cookies
    ensures m.currentIndex < |m.cookies| ==> m'.currentIndex < |m.cookies|
    decreases k
  {
    if k == 0 then m else Advance(GetNextCookie(m).value.1, k - 1)
  }

  /** The entry index after `k` < n calls from index i: i + k, wrapping once. */
  lemma {:induction false} AdvanceIndex(m: Manager, k: nat)
    requires 0 < |m.cookies| && m.currentIndex < |m.cookies| && k < |m.cookies|
    ensures var i := m.currentIndex;
            Advance(m, k).currentIndex == if i + k < |m.cookies| then i + k else i + k - |m.cookies|
    decreases k
  {
    if k > 0 {
      AdvanceIndex(GetNextCookie(m).value.1, k - 1);
    }
  }

  /** The indices used by the first `count` picks from the snapshot `m`. */
  function Visits(m: Manager, count: nat): (r: seq<nat>)
    requires |m.cookies| > 0
    ensures |r| == count && forall k :: 0 <= k < count ==> r[k] == Visit(m, k)
  {
    if count == 0 then [] else Visits(m, count - 1) + [Visit(m, count - 1)]
  }

  /** Starting from any in-range index, the pick and the n - 1 retries after
      it visit every entry of an n-entry snapshot exactly once. */
  lemma RoundRobinVisitsAll(m: Manager)
    requires 0 < |m.cookies| && m.currentIndex < |m.cookies|
    ensures var v := Visits(m, |m.cookies|);
            && (forall k1, k2 :: 0 <= k1 < k2 < |v| ==> v[k1] != v[k2])
            && (forall j :: 0 <= j < |m.cookies| ==> j in v)
  {
    var n := |m.cookies|;
    var i := m.currentIndex;
    var v := Visits(m, n);
    forall k1, k2 | 0 <= k1 < k2 < n
      ensures v[k1] != v[k2]
    {
      AdvanceIndex(m, k1);
      AdvanceIndex(m, k2);
    }
    forall j | 0 <= j < n
      ensures j in v
    {
      var k := if j >= i then j - i else n - i + j;
      AdvanceIndex(m, k);
      assert v[k] == j;
    }
  }

  /** The index of the entry used `k` calls after the snapshot `m`. */
  function Visit(m: Manager, k: nat): nat
    requires |m.cookies| > 0
  {
    Advance(m, k).currentIndex
  }

  // ---------------------------------------------------------------------
  // RemoveCookie

  /** RemoveCookie: the pool without every entry equal to the argument. The
      lockout map and every snapshot already taken are separate values and
      are untouched. */
  function RemoveCookie(qd: seq<string>, cookie: string): (r: seq<string>)
    ensures |r| <= |qd|
  {
    RemoveAll(qd, cookie)
  }

  lemma {:induction false} RemoveCookieSpec(qd: seq<string>, cookie: string)
    ensures cookie !in RemoveCookie(qd, cookie)
    ensures forall x :: x != cookie ==> Count(RemoveCookie(qd, cookie), x) == Count(qd, x)
    ensures IsSubsequence(RemoveCookie(qd, cookie), qd)
  {
    RemoveAllSpec(qd, cookie);
  }

  lemma {:induction false} RemoveAllSpec(xs: seq<string>, c: string)
    ensures c !in RemoveAll(xs, c)
    ensures forall x :: x != c ==> Count(RemoveAll(xs, c), x) == Count(xs, x)
    ensures IsSubsequence(RemoveAll(xs, c), xs)
  {
    if |xs| > 0 {
      RemoveAllSpec(xs[1..], c);
      var rest := RemoveAll(xs[1..], c);
      if xs[0] == c {
        assert RemoveAll(xs, c) == rest;
        SubsequenceSkip(rest, xs);
      } else {
        assert RemoveAll(xs, c) == [xs[0]] + rest;
        assert ([xs[0]] + rest)[1..] == rest;
        forall x | x != c ensures Count(RemoveAll(xs, c), x) == Count(xs, x) {
          assert ([xs[0]] + rest)[0] == xs[0];
        }
      }
    }
  }

  lemma {:induction false} SubsequenceSkip(sub: seq<string>, xs: seq<string>)
    requires |xs| > 0 && IsSubsequence(sub, xs[1..])
    ensures IsSubsequence(sub, xs)
    decreases |sub| + |xs|
  {
    if |sub| > 0 && sub[0] == xs[0] {
      SubsequenceTail(sub, xs[1..]);
    }
  }

  lemma {:induction false} SubsequenceTail(sub: seq<string>, xs: seq<string>)
    requires |sub| > 0 && IsSubsequence(sub, xs)
    ensures IsSubsequence(sub[1..], xs)
    decreases |sub| + |xs|
  {
    if |sub| > 1 {
      if sub[0] == xs[0] {
        SubsequenceSkip(sub[1..], xs);
      } else {
        SubsequenceTail(sub, xs[1..]);
        SubsequenceSkip(sub[1..], xs);
      }
    }
  }
}
