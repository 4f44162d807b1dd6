/** Header ordering and header-name canonicalisation as the transport
    applies them (cycletls/index.go processRequest, net/textproto). */
module Headers {
  import opened Wrappers
  import opened Str
  import opened Seqs

  /** The master header order used when the caller gives none. */
  const ChromeHeaderOrder: seq<string> := [
    "host", "connection", "cache-control", "device-memory", "viewport-width",
    "rtt", "downlink", "ect", "sec-ch-ua", "sec-ch-ua-mobile",
    "sec-ch-ua-full-version", "sec-ch-ua-arch", "sec-ch-ua-platform",
    "sec-ch-ua-platform-version", "sec-ch-ua-model", "upgrade-insecure-requests",
    "user-agent", "accept", "sec-fetch-site", "sec-fetch-mode", "sec-fetch-user",
    "sec-fetch-dest", "referer", "accept-encoding", "accept-language", "cookie"]

  // ---------------------------------------------------------------------
  // Header ordering

  /** The order list in force: the caller's list lower-cased, or Chrome's. */
  function EffectiveOrder(order: seq<string>): (r: seq<string>)
    ensures |order| > 0 ==> |r| == |order| && forall i :: 0 <= i < |order| ==> r[i] == Lower(order[i])
    ensures |order| == 0 ==> r == ChromeHeaderOrder
  {
    if |order| > 0 then LowerAll(order) else ChromeHeaderOrder
  }

  function LowerAll(names: seq<string>): (r: seq<string>)
    ensures |r| == |names| && forall i :: 0 <= i < |names| ==> r[i] == Lower(names[i])
  {
    if |names| == 0 then [] else [Lower(names[0])] + LowerAll(names[1..])
  }

  lemma ChromeOrderShape()
    ensures |ChromeHeaderOrder| == 26
    ensures ChromeHeaderOrder[0] == "host" && ChromeHeaderOrder[25] == "cookie"
    ensures NoDup(ChromeHeaderOrder)
  {
    var xs := ChromeHeaderOrder;
    ChromeSigsFirstHalf();
    ChromeSigsSecondHalf();
    forall i, j | 0 <= i < j < |xs|
      ensures xs[i] != xs[j]
    {
      assert ChromeSigIndex(NameSig(xs[i])) == i;
    }
  }

  /** A cheap fingerprint of a name: its length and its third-last character
      (distinct for every entry of Chrome's order). */
  function NameSig(s: string): int {
    if |s| < 3 then 0 else |s| * 256 + s[|s| - 3] as int
  }

  /** The position in Chrome's order of the entry with fingerprint `v`. */
  function ChromeSigIndex(v: int): int {
    if v == 1135 then 0 else
    if v == 2665 then 1 else
    if v == 3442 then 2 else
    if v == 3439 then 3 else
    if v == 3684 then 4 else
    if v == 882 then 5 else
    if v == 2153 then 6 else
    if v == 869 then 7 else
    if v == 2349 then 8 else
    if v == 4201 then 9 else
    if v == 5737 then 10 else
    if v == 3698 then 11 else
    if v == 4719 then 12 else
    if v == 6761 then 13 else
    if v == 3940 then 14 else
    if v == 6515 then 15 else
    if v == 2661 then 16 else
    if v == 1637 then 17 else
    if v == 3689 then 18 else
    if v == 3695 then 19 else
    if v == 3699 then 20 else
    if v == 3685 then 21 else
    if v == 1906 then 22 else
    if v == 3945 then 23 else
    if v == 3937 then 24 else
    if v == 1643 then 25 else
    -1
  }

  lemma ChromeSigsFirstHalf()
    ensures forall i :: 0 <= i < 13 ==> ChromeSigIndex(NameSig(ChromeHeaderOrder[i])) == i
  {
  }

  lemma ChromeSigsSecondHalf()
    ensures forall i :: 13 <= i < 26 ==> ChromeSigIndex(NameSig(ChromeHeaderOrder[i])) == i
  {
  }

  predicate NoDup(xs: seq<string>) {
    forall i, j :: 0 <= i < j < |xs| ==> xs[i] != xs[j]
  }

  /** Number of caller headers whose lower-cased name is `x`. */
  function CountLower(headers: seq<(string, string)>, x: string): nat {
    if |headers| == 0 then 0
    else (if Lower(headers[0].0) == x then 1 else 0) + CountLower(headers[1..], x)
  }

  function Repeat(x: string, n: nat): (r: seq<string>)
    ensures |r| == n
    ensures forall i :: 0 <= i < n ==> r[i] == x
  {
    if n == 0 then [] else [x] + Repeat(x, n - 1)
  }

  /** The inner loop: for one order entry, the lower-cased name of every
      caller header that matches it, in iteration order. */
  function MatchingNames(key: string, headers: seq<(string, string)>): (r: seq<string>)
    ensures r == Repeat(key, CountLower(headers, key))
  {
    if |headers| == 0 then []
    else
      var lk := Lower(headers[0].0);
      (if key == lk then [lk] else []) + MatchingNames(key, headers[1..])
  }

  /** The ordering key handed to the HTTP/2 layer. */
  function OrderKey(order: seq<string>, headers: seq<(string, string)>): seq<string> {
    if |order| == 0 then []
    else MatchingNames(order[0], headers) + OrderKey(order[1..], headers)
  }

  lemma {:induction false} RepeatCount(k: string, n: nat, x: string)
    ensures Count(Repeat(k, n), x) == if x == k then n else 0
  {
    if n > 0 {
      RepeatCount(k, n - 1, x);
      var r := Repeat(k, n);
      assert r == [k] + Repeat(k, n - 1);
      assert r[0] == k && r[1..] == Repeat(k, n - 1);
    }
  }

  /** Every caller header whose lower-cased name is in the order list gets
      one ordering entry per occurrence of that name in the list; nothing
      else gets one. */
  lemma {:induction false} OrderKeyCounts(order: seq<string>, headers: seq<(string, string)>, x: string)
    ensures Count(OrderKey(order, headers), x) == Count(order, x) * CountLower(headers, x)
  {
    if |order| > 0 {
      var n := CountLower(headers, x);
      var tail := Count(order[1..], x);
      var block := MatchingNames(order[0], headers);
      OrderKeyCounts(order[1..], headers, x);
      RepeatCount(order[0], CountLower(headers, order[0]), x);
      CountAppend(block, OrderKey(order[1..], headers), x);
      assert OrderKey(order, headers) == block + OrderKey(order[1..], headers);
      if order[0] == x {
        assert Count(order, x) == 1 + tail;
        assert Count(OrderKey(order, headers), x) == n + tail * n;
        Distribute(1, tail, n);
      } else {
        assert Count(order, x) == tail;
        assert Count(OrderKey(order, headers), x) == tail * n;
      }
    }
  }

  lemma Distribute(a: nat, b: nat, n: nat)
    ensures (a + b) * n == a * n + b * n
  {
  }

  /** First index of `x` in `xs`, or |xs|. */
  function Pos(xs: seq<string>, x: string): (p: nat)
    ensures p <= |xs|
    ensures p < |xs| ==> xs[p] == x
  {
    if |xs| == 0 then 0 else if xs[0] == x then 0 else 1 + Pos(xs[1..], x)
  }

  lemma {:induction false} OrderKeyElementsInOrder(order: seq<string>, headers: seq<(string, string)>, i: nat)
    requires i < |OrderKey(order, headers)|
    ensures OrderKey(order, headers)[i] in order
  {
    var block := MatchingNames(order[0], headers);
    if i >= |block| {
      OrderKeyElementsInOrder(order[1..], headers, i - |block|);
    }
  }

  /** Past a head that differs from `x`, the position of `x` is one more
      than in the tail. */
  lemma PosPastHead(xs: seq<string>, x: string)
    requires |xs| > 0 && xs[0] != x
    ensures Pos(xs, x) == 1 + Pos(xs[1..], x)
  {
  }

  /** In a duplicate-free list, the tail is duplicate-free and misses the head. */
  lemma NoDupTail(xs: seq<string>, x: string)
    requires |xs| > 0 && NoDup(xs) && x in xs[1..]
    ensures NoDup(xs[1..]) && x != xs[0]
  {
    var k :| 0 <= k < |xs[1..]| && xs[1..][k] == x;
    assert xs[k + 1] == x;
  }

  /** With a duplicate-free order list, ordering entries follow the list. */
  lemma {:induction false} OrderKeyFollowsOrder(order: seq<string>, headers: seq<(string, string)>, i: nat, j: nat)
    requires NoDup(order)
    requires i < j < |OrderKey(order, headers)|
    ensures Pos(order, OrderKey(order, headers)[i]) <= Pos(order, OrderKey(order, headers)[j])
  {
    var key := OrderKey(order, headers);
    var block := MatchingNames(order[0], headers);
    var rest := OrderKey(order[1..], headers);
    assert key == block + rest;
    if i < |block| {
      assert key[i] == order[0];
    } else {
      var i', j' := i - |block|, j - |block|;
      assert key[i] == rest[i'] && key[j] == rest[j'];
      OrderKeyElementsInOrder(order[1..], headers, i');
      OrderKeyElementsInOrder(order[1..], headers, j');
      NoDupTail(order, rest[i']);
      NoDupTail(order, rest[j']);
      PosPastHead(order, rest[i']);
      PosPastHead(order, rest[j']);
      OrderKeyFollowsOrder(order[1..], headers, i', j');
    }
  }

  // ---------------------------------------------------------------------
  // Header names as net/textproto stores them

  predicate IsTokenChar(c: char) {
    || ('a' <= c <= 'z') || ('A' <= c <= 'Z') || ('0' <= c <= '9')
    || c in "!#$%&'*+-.^_`|~"
  }

  predicate AllTokenChars(k: string) {
    |k| == 0 || (IsTokenChar(k[0]) && AllTokenChars(k[1..]))
  }

  function CanonicalWalk(k: string, upper: bool): (r: string)
    ensures |r| == |k|
  {
    if |k| == 0 then ""
    else
      var c := if upper then UpperChar(k[0]) else LowerChar(k[0]);
      [c] + CanonicalWalk(k[1..], k[0] == '-')
  }

  /** CanonicalMIMEHeaderKey: a name made only of token characters gets an
      upper-case first letter and letters after '-', lower case elsewhere;
      any other name is kept as it is. */
  function CanonicalKey(k: string): string {
    if AllTokenChars(k) then CanonicalWalk(k, true) else k
  }

  lemma {:induction false} CanonicalWalkLower(k: string, upper: bool)
    ensures Lower(CanonicalWalk(k, upper)) == Lower(k)
  {
    if |k| > 0 {
      CanonicalWalkLower(k[1..], k[0] == '-');
    }
  }

  /** Canonicalisation only changes letter case: the wire name and the
      caller's name agree once lower-cased, which is what the ordering key
      compares. */
  lemma CanonicalKeyLower(k: string)
    ensures Lower(CanonicalKey(k)) == Lower(k)
  {
    CanonicalWalkLower(k, true);
  }

  /** The character CanonicalKey puts at index `i` of a token-only name. */
  function CanonicalChar(k: string, i: nat): char
    requires i < |k|
  {
    if i == 0 || k[i - 1] == '-' then UpperChar(k[i]) else LowerChar(k[i])
  }

  /** One step of the canonicalising walk, character by character. */
  lemma {:induction false} CanonicalWalkChars(k: string, upper: bool)
    ensures forall i :: 0 <= i < |k| ==> (CanonicalWalk(k, upper)[i] ==
      (if (if i == 0 then upper else k[i - 1] == '-') then UpperChar(k[i]) else LowerChar(k[i])))
  {
    if |k| > 0 {
      var w := CanonicalWalk(k, upper);
      var t := CanonicalWalk(k[1..], k[0] == '-');
      CanonicalWalkChars(k[1..], k[0] == '-');
      assert w == [w[0]] + t;
      forall i | 1 <= i < |k|
        ensures w[i] == (if k[i - 1] == '-' then UpperChar(k[i]) else LowerChar(k[i]))
      {
        assert w[i] == t[i - 1];
        assert k[1..][i - 1] == k[i];
        if i > 1 { assert k[1..][i - 2] == k[i - 1]; }
      }
    }
  }

  lemma {:induction false} AllTokenCharsIff(k: string)
    ensures AllTokenChars(k) <==> forall i :: 0 <= i < |k| ==> IsTokenChar(k[i])
  {
    if |k| > 0 {
      AllTokenCharsIff(k[1..]);
      assert forall i :: 1 <= i < |k| ==> k[1..][i - 1] == k[i];
    }
  }

  /** The two names processRequest forces onto the request are stored as
      "Host" and "User-Agent"; "Content-Length" is already canonical. */
  lemma CanonicalForcedNames()
    ensures CanonicalKey("Host") == "Host"
    ensures CanonicalKey("user-agent") == "User-Agent"
    ensures CanonicalKey("Content-Length") == "Content-Length"
  {
    ForcedHost();
    ForcedUserAgent();
    ForcedContentLength();
  }

  lemma ForcedHost()
    ensures CanonicalKey("Host") == "Host"
  {
    var k := "Host";
    forall i | 0 <= i < |k| ensures IsTokenChar(k[i]) && k[i] == CanonicalChar(k, i) {
    }
    CanonicalLiteral(k, k);
  }

  lemma ForcedUserAgent()
    ensures CanonicalKey("user-agent") == "User-Agent"
  {
    var k, e := "user-agent", "User-Agent";
    forall i | 0 <= i < |k| ensures IsTokenChar(k[i]) && e[i] == CanonicalChar(k, i) {
    }
    CanonicalLiteral(k, e);
  }

  lemma ForcedContentLength()
    ensures CanonicalKey("Content-Length") == "Content-Length"
  {
    var k := "Content-Length";
    forall i | 0 <= i < |k| ensures IsTokenChar(k[i]) && k[i] == CanonicalChar(k, i) {
    }
    CanonicalLiteral(k, k);
  }


  lemma CanonicalLiteral(k: string, expected: string)
    requires |k| == |expected|
    requires forall i :: 0 <= i < |k| ==> IsTokenChar(k[i])
    requires forall i :: 0 <= i < |k| ==> expected[i] == CanonicalChar(k, i)
    ensures CanonicalKey(k) == expected
  {
    AllTokenCharsIff(k);
    CanonicalWalkChars(k, true);
    var w := CanonicalWalk(k, true);
    forall i | 0 <= i < |k| ensures w[i] == expected[i] {
      assert w[i] == (if (if i == 0 then true else k[i - 1] == '-') then UpperChar(k[i]) else LowerChar(k[i]));
    }
  }


}
