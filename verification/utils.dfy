/** The string helpers of common/utils.go the gateway's control flow rests
    on: the random pick, the substring allow-list test, the base64 data-URL
    tests and the classifiers of upstream error payloads. Base64 decoding is
    the parameter `decodes`; `rand.Intn(n)` is `seed % n`. */
module Utils {
  import opened Wrappers
  import opened Str

  /** RandomElement */
  function RandomElement<T>(xs: seq<T>, seed: nat): (r: Result<T, string>)
    ensures |xs| == 0 <==> r.Err?
    ensures r.Err? ==> r.error == "empty slice"
    ensures r.Ok? ==> r.value in xs
  {
    if |xs| == 0 then Err("empty slice") else Ok(xs[seed % |xs|])
  }

  /** Every element of a non-empty slice can be drawn. */
  lemma RandomElementCoversAll<T>(xs: seq<T>, i: nat)
    requires i < |xs|
    ensures exists seed: nat :: RandomElement(xs, seed) == Ok(xs[i])
  {
    assert RandomElement(xs, i) == Ok(xs[i]);
  }

  /** SliceContains: the loop over the items. */
  function SliceContains(items: seq<string>, str: string): bool {
    if |items| == 0 then false
    else if Contains(str, items[0]) then true
    else SliceContains(items[1..], str)
  }

  /** True exactly when some item is a substring of `str`; never for an
      empty list. */
  lemma {:induction false} SliceContainsIff(items: seq<string>, str: string)
    ensures SliceContains(items, str) <==> exists i :: 0 <= i < |items| && Contains(str, items[i])
  {
    if |items| > 0 {
      SliceContainsIff(items[1..], str);
      if exists i :: 0 <= i < |items| && Contains(str, items[i]) {
        var i :| 0 <= i < |items| && Contains(str, items[i]);
        if i > 0 { assert items[1..][i - 1] == items[i]; }
      }
      if exists i :: 0 <= i < |items[1..]| && Contains(str, items[1..][i]) {
        var i :| 0 <= i < |items[1..]| && Contains(str, items[1..][i]);
        assert items[i + 1] == items[1..][i];
      }
    }
  }

  /** An empty item matches every string. */
  lemma EmptyItemMatchesAll(items: seq<string>, str: string)
    requires "" in items
    ensures SliceContains(items, str)
  {
    var i :| 0 <= i < |items| && items[i] == "";
    assert OccursAt(str, "", 0);
    SliceContainsIff(items, str);
  }

  // ---------------------------------------------------------------------
  // base64 data URLs

  const Base64Marker: string := ";base64,"

  /** IsBase64: the text after the marker must decode, and the marker must
      split the string in exactly two. */
  function IsBase64(s: string, decodes: string -> bool): bool {
    if !Contains(s, Base64Marker) then false
    else
      var parts := Split(s, Base64Marker);
      if |parts| != 2 then false else decodes(parts[1])
  }

  /** IsImageBase64: additionally the "data:image/" prefix. */
  function IsImageBase64(s: string, decodes: string -> bool): bool {
    if !HasPrefix(s, "data:image/") || !Contains(s, Base64Marker) then false
    else if !Contains(s, Base64Marker) then false
    else
      var parts := Split(s, Base64Marker);
      if |parts| != 2 then false else decodes(parts[1])
  }

  /** The marker cannot overlap itself: no occurrence starts inside another. */
  lemma MarkerNoOverlap(s: string, i: nat, j: nat)
    requires OccursAt(s, Base64Marker, i) && i < j < i + |Base64Marker|
    ensures !OccursAt(s, Base64Marker, j)
  {
    var m := Base64Marker;
    assert s[j] == m[j - i] by { assert s[i..i + |m|][j - i] == s[j]; }
    assert m[j - i] != ';';
    assert !OccursAt(s, m, j) by {
      assert j + |m| > |s| || s[j..j + |m|][0] != m[0];
    }
  }

  /** `sub` occurs in `s` at `i` and nowhere else. */
  ghost predicate OnlyAt(s: string, sub: string, i: nat) {
    OccursAt(s, sub, i) && forall j :: OccursAt(s, sub, j) ==> j == i
  }

  /** Occurrences in the text after position k are occurrences in s. */
  lemma OccursShift(s: string, sub: string, k: nat, j: int)
    requires k <= |s|
    ensures OccursAt(s[k..], sub, j) <==> j >= 0 && OccursAt(s, sub, j + k)
  {
    if j >= 0 && j + |sub| <= |s| - k {
      assert s[k..][j..j + |sub|] == s[j + k..j + k + |sub|];
    }
  }

  /** The first occurrence at i with none in the text after it is the only
      occurrence, and conversely. */
  lemma OnlyAtIff(s: string, i: nat)
    requires i + |Base64Marker| <= |s|
    ensures OnlyAt(s, Base64Marker, i) <==>
              Index(s, Base64Marker) == Some(i) && Index(s[i + |Base64Marker|..], Base64Marker).None?
  {
    var m := Base64Marker;
    var k := i + |m|;
    if Index(s, m) == Some(i) && Index(s[k..], m).None? {
      forall j | OccursAt(s, m, j) ensures j == i {
        if j > i && j < k {
          MarkerNoOverlap(s, i, j);
        } else if j >= k {
          OccursShift(s, m, k, j - k);
        }
      }
    }
    if OnlyAt(s, m, i) {
      forall j | OccursAt(s[k..], m, j) ensures false {
        OccursShift(s, m, k, j);
      }
    }
  }

  /** IsBase64 holds exactly when the marker occurs once and what follows
      it decodes. */
  lemma IsBase64Iff(s: string, decodes: string -> bool)
    ensures IsBase64(s, decodes) <==>
              exists i: nat :: i + |Base64Marker| <= |s| && OnlyAt(s, Base64Marker, i)
                               && decodes(s[i + |Base64Marker|..])
  {
    var m := Base64Marker;
    if Index(s, m).Some? {
      var i := Index(s, m).value;
      var rest := s[i + |m|..];
      assert Split(s, m) == [s[..i]] + Split(rest, m);
      SplitSingleIff(rest, m);
      OnlyAtIff(s, i);
      if exists i': nat :: i' + |m| <= |s| && OnlyAt(s, m, i') && decodes(s[i' + |m|..]) {
        var i': nat :| i' + |m| <= |s| && OnlyAt(s, m, i') && decodes(s[i' + |m|..]);
        assert i' == i;
      }
    } else {
      forall i: nat | i + |m| <= |s| ensures !OnlyAt(s, m, i) {
      }
    }
  }

  /** Split gives one part exactly when the separator does not occur. */
  lemma SplitSingleIff(s: string, sep: string)
    requires |sep| > 0
    ensures |Split(s, sep)| == 1 <==> Index(s, sep).None?
    ensures |Split(s, sep)| == 1 ==> Split(s, sep) == [s]
  {
    if Index(s, sep).Some? {
      var i := Index(s, sep).value;
      assert Split(s, sep) == [s[..i]] + Split(s[i + |sep|..], sep);
    }
  }

  /** IsImageBase64 is IsBase64 plus the image prefix. */
  lemma IsImageBase64IsBase64(s: string, decodes: string -> bool)
    ensures IsImageBase64(s, decodes) <==> HasPrefix(s, "data:image/") && IsBase64(s, decodes)
  {
  }

  // ---------------------------------------------------------------------
  // Classifiers of upstream error payloads

  // The payload literals, assembled from short pieces.
  const ErrorHead: string := "{\"error\":\""
  const MessageKey: string := "\",\"message\":\""
  const TryLater: string := " Please try again later.\"}"
  const RateLimitBody: string :=
    ErrorHead + "Too many concurrent requests" + MessageKey + "You have reached your maximum concurrent" + " request limit." + TryLater
  const UsageLimitPrefix: string :=
    ErrorHead + "Usage limit exceeded" + MessageKey + "You have reached your Kilo Code usage" + " limit."
  const InvalidTokenBody: string := ErrorHead + "Invalid token\"}"
  const BearerNeededBody: string := "{\"detail\":\"" + "Bearer authentication is needed\"}"
  const ServiceUnavailableBody: string :=
    ErrorHead + "Service Unavailable" + MessageKey + "The service is temporarily unavailable." + TryLater
  const Http503Body: string := "HTTP error status: 503"
  const CloudflareBlockMarker: string := "<h1 data-translate=\"block_headline\">" + "Sorry, you have been blocked</h1>"

  predicate IsCloudflareBlock(data: string) {
    Contains(data, CloudflareBlockMarker)
  }

  predicate IsRateLimit(data: string) {
    data == RateLimitBody
  }

  predicate IsUsageLimitExceeded(data: string) {
    HasPrefix(data, UsageLimitPrefix)
  }

  predicate IsNotLogin(data: string) {
    Contains(data, InvalidTokenBody)
  }

  predicate IsChineseChat(data: string) {
    data == BearerNeededBody
  }

  predicate IsServerError(data: string) {
    data == ServiceUnavailableBody || data == Http503Body
  }

  /** The usage-limit test only looks at the start: any continuation
      matches. */
  lemma UsageLimitIsPrefixTest(rest: string)
    ensures IsUsageLimitExceeded(UsageLimitPrefix + rest)
  {
    assert (UsageLimitPrefix + rest)[..|UsageLimitPrefix|] == UsageLimitPrefix;
  }

  /** The invalid-token test is a substring test: the payload may sit
      anywhere. */
  lemma NotLoginIsSubstringTest(pre: string, post: string)
    ensures IsNotLogin(pre + InvalidTokenBody + post)
  {
    var s := pre + InvalidTokenBody + post;
    assert s[|pre|..|pre| + |InvalidTokenBody|] == InvalidTokenBody;
    assert OccursAt(s, InvalidTokenBody, |pre|);
    ContainsIff(s, InvalidTokenBody);
  }

  lemma CloudflareIsSubstringTest(pre: string, post: string)
    ensures IsCloudflareBlock(pre + CloudflareBlockMarker + post)
  {
    var s := pre + CloudflareBlockMarker + post;
    assert s[|pre|..|pre| + |CloudflareBlockMarker|] == CloudflareBlockMarker;
    assert OccursAt(s, CloudflareBlockMarker, |pre|);
    ContainsIff(s, CloudflareBlockMarker);
  }

  /** The exact-match classifiers are pairwise exclusive and none of their
      literals is a usage-limit payload. */
  lemma ExactClassifiersDisjoint(data: string)
    ensures !(IsRateLimit(data) && IsChineseChat(data))
    ensures !(IsRateLimit(data) && IsServerError(data))
    ensures !(IsChineseChat(data) && IsServerError(data))
    ensures IsRateLimit(data) || IsChineseChat(data) || IsServerError(data) ==> !IsUsageLimitExceeded(data)
  {
    assert |RateLimitBody| == 132 && |UsageLimitPrefix| == 87 && |BearerNeededBody| == 44;
    assert |ServiceUnavailableBody| == 107 && |Http503Body| == 22;
    if IsUsageLimitExceeded(data) {
      assert data[10] == UsageLimitPrefix[10] == 'U';
      assert RateLimitBody[10] == 'T' && ServiceUnavailableBody[10] == 'S';
    }
  }
}
