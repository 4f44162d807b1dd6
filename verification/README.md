# qodo2api core, modelled in Dafny

qodo2api is a gateway that speaks the OpenAI chat-completions protocol to its
callers and forwards each conversation to a streaming chat backend. This
project models the logic at its centre and proves properties of it:

- **Transport** (`transport.dfy`, `headers.dfy`, `sse.dfy`). This is the
  browser-impersonating HTTP client.
  - Request preparation: the header-ordering key, the forced `Host` and
    `user-agent` headers, and header-name canonicalisation.
  - The defaults of `Do`/`DoSSE`, and response-header folding.
  - The server-sent-event read loop, which turns a response body into a
    finite event sequence. The body is a sequence of read results: a line, a
    read error, or end of input with a fragment.
- **Credential pool** (`pool.dfy`). This covers:
  - parsing `QD_COOKIE` at start-up;
  - the timed lockout map;
  - the per-request snapshot of eligible cookies;
  - the random first pick, then round-robin retries;
  - permanent removal.
- **Request handler** (`chat.dfy`, `chatbody.dfy`). This covers:
  - validation of the decoded request;
  - the reading of one upstream event stream;
  - the fixed-order classification of terminal upstream signals;
  - the failover loop over the snapshot;
  - the construction of the upstream request body.
- **Upstream** (`upstream.dfy`). This covers the request descriptor built
  from the token map, the periodic token refresh and its next-run
  arithmetic.
- **Pure helpers**:
  - `utils.dfy`: signal classifiers, `SliceContains`, `RandomElement`,
    base64 data-URL tests.
  - `utf8.dfy`: UTF-8 validity and the UTF-8-safe splitter.
  - `messages.dfy`: message-list transformations.
  - `filetype.dfy`: magic-number sniffing.
  - `registry.dfy`: the model registry.
  - `web.dfy`: route prefix, NoRoute fallback, secrets, IP blacklist.
  - `strs.dfy`: Go string primitives.
  - `seqs.dfy`: counting.
  - `wrappers.dfy`: Option and Result.

Modelling choices:

- Global state becomes explicit values passed in and out:
  - the cookie list;
  - the lockout map;
  - the token map.
- Whatever the code cannot know in advance is a parameter:
  - the clock is a parameter: `now` is the reading the cookie scan takes,
    and `clock(k)` is the reading taken when the k-th attempt's rate-limit
    notice arrives;
  - `rand.Intn(n)` is `seed % n`;
  - Go's map iteration order is a sequence or an arbitrary choice;
  - JSON encoding and decoding, `url.QueryEscape`, base64 decoding, uuids
    and the token exchange are function parameters.
- The failover loop is generic over an abstract attempt. The handler
  instantiates it with the concrete attempt.

## Model

| member | source | states |
|---|---|---|
| Sse.DecodeFramed | cycletls/index.go:638-704 | A 2xx body always yields payload events, then exactly one closing event. Payload events carry non-empty data and are not done. The closing event is done and is either "[DONE]" or "Error reading stream: …". Every event carries the response's request id, status and final URL. |
| Sse.DispatchSse | cycletls/index.go:596-705 | Every response yields exactly one done event, and it is last. No event has empty data. A transport failure yields one event "<msg>-> \n<err>". A non-2xx status yields one event carrying the body, or "HTTP error status: <code>" when the body is empty. 2xx events carry the response status. |
| Sse.DecodeMatchesLines | cycletls/index.go:642-704 | Without read errors, the non-terminal events carry, in order, the payloads of the non-blank lines up to the first line whose trimmed text ends in "[DONE]". The payload is the line trimmed, with "data: " stripped, then trimmed again. The last event is the done "[DONE]" event. |
| Sse.StopsAtDoneLine | cycletls/index.go:691-694 | Nothing after the first line ending in "[DONE]" is read: the output does not depend on it. |
| Sse.BlankBodyOnlyDone | cycletls/index.go:672-675 | A body of blank lines yields only the closing event. |
| Sse.RetriedErrorsInvisible | cycletls/index.go:645-654 | Read errors within the budget of 3 produce no event. Each only advances the retry counter. |
| Sse.RetriesForgottenOnSuccess | cycletls/index.go:666-667 | The retry counter only matters for a read error; any successful read resets it. |
| Sse.FourthErrorTerminates | cycletls/index.go:650-663 | The fourth consecutive read error ends the stream with a single "Error reading stream: <msg>" done event. |
| Sse.NonBlankLineHasPayload | cycletls/index.go:670-688 | A non-blank line always has a non-empty payload. So the `data != ""` test never drops a line. |
| Sse.DataDoneLine | cycletls/index.go:679-694 | A "data: [DONE]" line is forwarded as a non-terminal "[DONE]" event, followed by the closing one. |
| Sse.ReadAllStopsAtError | cycletls/index.go:616-618 | The error body read by `io.ReadAll` is the lines before a failing read plus that read's partial data, and nothing after. |
| Sse.EmptyErrorBody | cycletls/index.go:616-631 | A 503 with an empty body becomes the single event "HTTP error status: 503". |
| Sse.DoSse | cycletls/index.go:708-729 | DoSSE never returns an error. Its events are well terminated. The wire user agent is the caller's, or the default Chrome one when the caller's is empty. |
| Transport.ProcessRequest | cycletls/index.go:97-175 | The prepared request has `Host` set to the URL authority and `User-Agent` set to the options' user agent. Its method is upper-cased; its body and URL are the options'. |
| Transport.WireHeaderContents | cycletls/index.go:167-172 | Every other header is on the wire exactly when some caller header other than an exact "Content-Length" canonicalises to it. Its value is that of the last such header in iteration order. |
| Transport.ContentLengthNeverCopied | cycletls/index.go:168-172 | A caller "Content-Length" header never reaches the wire. |
| Transport.ForcedHeadersSet | cycletls/index.go:173-174 | The forced Host and user-agent values land under "Host" and "User-Agent" whatever was there. Every other header is untouched. |
| Transport.CopyHeadersSpec | cycletls/index.go:168-171 | After the copy loop, a name holds the value of the last copied caller header with that canonical name, or its earlier value when there is none. |
| Transport.WithDefaults | cycletls/index.go:244-253 | Ja3 and UserAgent get the fixed defaults only when empty. Non-empty values and all other options pass through unchanged. |
| Transport.WithDefaultsIdempotent | cycletls/index.go:247-253 | Applying the defaults twice is applying them once. |
| Transport.FoldHeaders | cycletls/index.go:207-217 | Set-Cookie becomes all its values joined by "/,/". Every other header keeps its last value. |
| Transport.Dispatch | cycletls/index.go:179-228 | A transport failure returns a response with the parsed status, body "<msg>-> \n<err>", no headers and no error. A body read failure returns an error with an empty response. Otherwise the response has the status, the body, the folded headers and the final URL. |
| Transport.Do | cycletls/index.go:242-262 | Do always prepares with a non-empty Ja3 and puts the effective user agent on the wire. A transport failure is not an error. |
| Headers.EffectiveOrder | cycletls/index.go:101-139 | A non-empty order list is lower-cased element-wise. An empty one is replaced by Chrome's list. |
| Headers.ChromeOrderShape | cycletls/index.go:111-138 | Chrome's list has 26 distinct entries, from "host" to "cookie". |
| Headers.OrderKeyCounts | cycletls/index.go:141-153 | A name appears in the ordering key (list occurrences of it) × (caller headers whose lower-cased name is it) times. Nothing else appears. |
| Headers.OrderKeyElementsInOrder | cycletls/index.go:143-150 | Every ordering-key entry is an entry of the order list. |
| Headers.OrderKeyFollowsOrder | cycletls/index.go:144-153 | With a duplicate-free order list, the ordering key follows the list's order. |
| Headers.MatchingNames | cycletls/index.go:145-151 | One order entry contributes its own name once per matching caller header. |
| Headers.CanonicalKeyLower | cycletls/index.go:168-174 | Header-name canonicalisation only changes letter case. |
| Headers.CanonicalForcedNames | cycletls/index.go:173-174 | "Host" and "user-agent" are stored as "Host" and "User-Agent"; "Content-Length" is already canonical. |
| Pool.AddRateLimitCookie | common/config/config.go:55-60 | The expiry of that one cookie is inserted or overwritten. Every other entry is unchanged. |
| Pool.LockLastsDuration | controller/chat.go:139-143 | A cookie locked at `now` for RATE_LIMIT_COOKIE_LOCK_DURATION seconds is locked at every nanosecond up to `now` + that many seconds, and free from then on. |
| Pool.InitEach | common/config/config.go:84-105 | The parse accepts at most all the entries. It succeeds exactly when it accepts every one. |
| Pool.InitEachKeeps | common/config/config.go:99-104 | The parse only appends to the cookie list and only adds to the token map. |
| Pool.InitEachTrims | common/config/config.go:84-85 | The accepted entries are the pieces, trimmed, in order. |
| Pool.InitEachAccepted | common/config/config.go:86-104 | Every accepted entry has exactly one '=' and a token under its key. |
| Pool.InitEachRejects | common/config/config.go:86-89 | An entry without exactly one '=' stops the parse with "invalid cookie format: <entry>" once the earlier entries are accepted. |
| Pool.InitQDCookiesSuccess | common/config/config.go:74-108 | On success the pool is the comma-separated entries of QD_COOKIE, trimmed, in order. Each has exactly one '=' and a token entry under its key. |
| Pool.InitQDCookiesRejects | common/config/config.go:84-89 | The first malformed entry is reported with its own text. |
| Pool.KeyOfIsTextBeforeEquals | qodo-api/api.go:19-20 | A cookie's token-map key is its text before the first '=', or the whole cookie when it has none. |
| Pool.Scan | common/config/config.go:136-149 | The snapshot loop only deletes lockouts, and never one that has not expired. |
| Pool.ScanMatchesRef | common/config/config.go:127-159 | The snapshot holds the trimmed, non-empty pool entries not under an unexpired lockout, in order. |
| Pool.EligibleMembers | common/config/config.go:130-153 | A cookie is in the snapshot exactly when some entry trims to it, it is non-empty and it is not under an unexpired lockout. |
| Pool.ScanLockouts | common/config/config.go:136-149 | A lockout survives the snapshot exactly when it is unexpired, or its cookie is not listed. |
| Pool.NewCookieManager | common/config/config.go:155-158 | The new snapshot starts at index 0. |
| Pool.GetRandomCookie | common/config/config.go:161-175 | An empty snapshot fails with "no cookies available". Otherwise the pick is the entry at the new, in-range index. |
| Pool.RandomPickCoversAll | common/config/config.go:169-174 | Every entry can be the random pick. |
| Pool.GetNextCookie | common/config/config.go:177-187 | An empty snapshot fails with "no cookies available". Otherwise the index steps by one, wrapping to 0 after the last entry, and that entry is returned. |
| Pool.AdvanceIndex | common/config/config.go:185-186 | After k < n steps from index i the index is i + k, wrapped once. |
| Pool.RoundRobinVisitsAll | common/config/config.go:177-187 | n picks from any in-range index visit every entry of an n-entry snapshot exactly once. |
| Pool.RemoveCookieSpec | common/config/config.go:189-204 | RemoveCookie drops every entry equal to its argument. It keeps every other entry with its multiplicity, in order. |
| Utils.RandomElement | common/utils.go:69-81 | An empty slice fails with "empty slice". Otherwise the result is an element of the slice. |
| Utils.RandomElementCoversAll | common/utils.go:78-80 | Every element can be drawn. |
| Utils.SliceContainsIff | common/utils.go:83-90 | True exactly when some item is a substring of the string. So it is false for an empty list. |
| Utils.EmptyItemMatchesAll | common/utils.go:83-90 | An empty item matches every string. |
| Utils.IsBase64Iff | common/utils.go:114-134 | True exactly when ";base64," occurs exactly once and the text after it decodes. |
| Utils.IsImageBase64IsBase64 | common/utils.go:92-112 | IsImageBase64 is IsBase64 plus the "data:image/" prefix. |
| Utils.UsageLimitIsPrefixTest | common/utils.go:183-189 | The usage-limit test is a prefix test: any continuation matches. |
| Utils.NotLoginIsSubstringTest | common/utils.go:191-197 | The invalid-token test is a substring test. |
| Utils.CloudflareIsSubstringTest | common/utils.go:138-144 | The Cloudflare block test is a substring test. |
| Utils.ExactClassifiersDisjoint | common/utils.go:175-213 | The exact-match classifiers (rate limit, Chinese, server error) are pairwise exclusive. None of their literals is a usage-limit payload. |
| Utf8.SplitRoundTrip | common/utils.go:21-49 | For valid UTF-8 and size ≥ 0 the split returns, and its pieces concatenate to the input. |
| Utf8.SplitPiecesValid | common/utils.go:24-46 | Every piece is non-empty valid UTF-8. |
| Utf8.SplitPiecesSized | common/utils.go:26-43 | Every piece but the last is at most `size` bytes. The last is too, unless its first character alone is wider than `size`. |
| Utf8.SplitStringByBytes | common/utils.go:21-49 | "" gives no pieces. A negative size on non-empty input slices out of range. |
| Utf8.InvalidStartDiverges | common/utils.go:24-45 | Input starting with an invalid byte makes the loop cut nothing and spin. |
| Utf8.CutPointFacts | common/utils.go:26-42 | One cut is a valid non-empty prefix of at most `size` bytes, or the whole rest when the first character is wider. |
| Utf8.LongestValidPrefixIsLongest | common/utils.go:32-34 | The shortening loop stops at the longest valid prefix within the bound. |
| Messages.AddMessage | model/openai.go:53-55 | The result is the new message followed by the old ones in order. |
| Messages.PrependMessagesFromJSON | model/openai.go:57-76 | A parse error leaves the messages unchanged and is returned. Otherwise the list grows by exactly the parsed messages. |
| Messages.PrependPlacement | model/openai.go:64-74 | The parsed messages sit, in order, right after the last system message, or at the front. Removing them gives the old list back. |
| Messages.InsertIndexZeroIff | model/openai.go:64-71 | The insertion point is 0 exactly when there is no system message. |
| Messages.SystemMessagesProcessSpec | model/openai.go:78-90 | No system role is left. Contents, kinds, other roles and the length are kept, and a second pass changes nothing. |
| Messages.FilterUserMessageSpec | model/openai.go:92-104 | With a user message the result is the suffix starting at the last one. Without one, nothing changes. The filter is idempotent. |
| Messages.GetUserContentSpec | model/openai.go:211-225 | At most one element: the content of the last user message, when that content is a string. |
| Messages.GetPreviousMessagePair | model/openai.go:226-262 | Fewer than 3 messages, or a last message not from the user, gives ("", false, nil). A found pair implies both preconditions. |
| Messages.PreviousPairIsLatest | model/openai.go:236-257 | The pair is the latest user message followed by an assistant message in [1, len-2]. It is reported exactly when it exists and encodes, as the encoding with escapes removed. |
| Messages.RemoveEscapesNoBackslash | model/openai.go:251-255 | Text without backslashes passes the replacer unchanged. |
| Messages.RemoveEscapesNotIdempotent | model/openai.go:251-255 | The one-pass replacer is not idempotent. |
| Messages.RemoveEmptyContentMessages | model/openai.go:264-292 | Only messages with non-empty content remain, all from the input. |
| Messages.RemoveEmptyKeepsNonEmpty | model/openai.go:264-292 | A list without empty content comes back unchanged, including the empty list. |
| Messages.RemoveEmptyIdempotent | model/openai.go:264-292 | The filter is idempotent. |
| Messages.RemoveEmptyCounts | model/openai.go:269-290 | Each non-empty message keeps its multiplicity; empty ones have none. |
| FileType.MatchAtIff | common/filetype.go:32-33 | The matcher finds exactly the matches of `data:([^;]+);base64,` at a position. |
| FileType.MimeTypeIsLeftmostCapture | common/filetype.go:30-38 | The MIME type is the capture of the leftmost match, or "" when there is none. |
| FileType.IsTextFileScan | common/filetype.go:41-97 | The two counting loops compute the text verdict on the sampled bytes. |
| FileType.TextEdgeCases | common/filetype.go:44-54 | Empty data is not text. Data with a UTF-8 or UTF-16 BOM is. |
| FileType.TextIgnoresMiddle | common/filetype.go:56-93 | Bytes outside the first 4096, and outside the last 1024 when len > 5120, never change the verdict. |
| FileType.SniffCharacterised | common/filetype.go:128-188 | Each signature is recognised exactly when present. Text is reported only when no signature is present and the heuristic accepts. |
| FileType.DetectFileType | common/filetype.go:100-189 | A valid result has non-empty MIME type and extension. An invalid one has both empty. |
| FileType.DetectFileTypeCases | common/filetype.go:100-126 | A "text/plain" data URI is text without decoding. Otherwise the decoded text after the first ',' decides, and a decode failure is invalid. |
| FileType.ShortDocSignature | common/filetype.go:165-188 | The Word signature on 4 bytes is not a document and not text. |
| Registry.RegistryContents | common/constants.go:14-25 | The registry holds exactly the ten public names. Each maps to its upstream name (renamed only for the two DeepSeek entries) with max tokens 100000. |
| Registry.GetModelInfo | common/constants.go:28-31 | (info, true) exactly for registered names, with their upstream name and limit. Otherwise the zero value and false. |
| Registry.GetModelList | common/constants.go:33-39 | Each registered name once, in some order. |
| Registry.ListKeys | common/constants.go:35-37 | Ranging over map keys lists each key exactly once. |
| Web.ProcessPath | router/api-router.go:38-55 | "" stays "". Any result is "" or starts with "/". |
| Web.ProcessPathInverse | router/api-router.go:44-54 | Putting back the one dropped trailing "/" gives the slash-led path. |
| Web.ProcessPathCases | router/api-router.go:38-55 | A slash-led path without a trailing slash is unchanged. "/" becomes "". "a//" becomes "/a/", so the function is not idempotent. |
| Web.V1Prefix | router/api-router.go:30-30 | The v1 group prefix starts with "/" and ends in "/v1". |
| Web.NoRouteCases | router/web.go:31-54 | A path starting with "/v1" or "/api" is an API 404. Otherwise a path with '.' is a bare 404, and anything else is the index page. |
| Web.NoRouteRawPrefix | router/web.go:35-42 | "/v1beta", "/apix" and "/v1/app.js" are API 404s. |
| Web.NoRouteAssetOrPage | router/web.go:44-53 | "/app.js" is a bare 404; "/chat" is the index page. |
| Web.StripBearer | middleware/auth.go:27-28 | Without "Bearer " the header is unchanged; otherwise exactly 7 characters go. |
| Web.StripBearerCases | middleware/auth.go:27-28 | Only the first "Bearer " is removed, wherever it is. |
| Web.IsValidSecretIff | middleware/auth.go:14-20 | With no API_SECRET every secret is accepted. Otherwise the secret must equal a comma-split entry exactly. |
| Web.SecretsNotTrimmed | middleware/auth.go:18-18 | Entries are not trimmed: a space after the comma is part of the entry. |
| Web.OpenAIAuth | middleware/auth.go:26-50 | The OpenAI check never changes the Authorization header. |
| Web.BackendAuth | middleware/auth.go:52-68 | With no BACKEND_SECRET the header is blanked. Otherwise it is kept. |
| Web.AuthVerdicts | middleware/auth.go:22-68 | The backend check refuses exactly when BACKEND_SECRET is set and differs from the presented secret. The OpenAI check accepts exactly the valid secrets. |
| Web.BlacklistedIff | middleware/ip-list.go:17-23 | Blocked exactly when some entry, trimmed, equals the client IP. |
| Web.BlacklistSetSemantics | middleware/ip-list.go:17-23 | Order and repetition of entries do not matter. |
| Web.UnsetBlacklist | middleware/ip-list.go:17-18 | An unset IP_BLACK_LIST is [""], so only an empty client IP is blocked. |
| Web.IpBlacklistMiddleware | middleware/ip-list.go:11-28 | The request is refused exactly when some trimmed entry equals the client IP. |
| Upstream.MakeStreamChatRequest | qodo-api/api.go:18-50 | It fails with "cookie not found in QDTokenMap" exactly when the cookie's key is missing. Otherwise the events are well terminated and non-empty. |
| Upstream.ChatRequestShape | qodo-api/api.go:25-44 | The request is a POST of the body, verbatim, to the chat endpoint, with timeout 36000 and the proxy. It has Host api.gen.qodo.ai, the default Chrome user agent (the forced header overrides the "axios/1.7.9" one) and "Bearer <access token>". |
| Upstream.ChatOptions | qodo-api/api.go:25-40 | The user agent, Ja3 and header order are left empty. |
| Upstream.AuthorizationLast | qodo-api/api.go:38-38 | The Authorization header is the only one canonicalising to that name. |
| Upstream.RefreshOne | job/cookie.go:20-37 | A refresh changes at most the entry of the cookie's own key and never the key set. |
| Upstream.RefreshOneCases | job/cookie.go:21-36 | A failed exchange changes nothing. A successful one stores the key as api key plus the new tokens. |
| Upstream.RefreshAllUntouched | job/cookie.go:19-39 | A key no refreshed cookie names keeps its entry. |
| Upstream.RefreshAllShape | job/cookie.go:31-35 | A changed entry has its own key as api key. |
| Upstream.RefreshOnlySnapshot | job/cookie.go:19-39 | Only cookies in the current snapshot are refreshed. So a key whose cookies are all locked keeps its entry. |
| Upstream.MinutesToAdd | job/cookie.go:44-48 | The job adds 1 to 10 minutes. |
| Upstream.MinutesToAddReaches | job/cookie.go:44-49 | The added minutes reach a multiple of ten and pass none. |
| Upstream.NextRunIsNextMark | job/cookie.go:43-51 | The next run is the first ten-minute mark strictly after now. So the sleep is positive and at most ten minutes. |
| ChatBody.CreateRequestBody | controller/chat.go:202-316 | This is the corrected build of the Findings row, which the handler uses. The request gains the two "pre" messages at its end. A max_tokens ≤ 1 becomes 8000. The body names the model's upstream name. |
| ChatBody.CreateRequestBodyAsWritten | controller/chat.go:202-316 | As written: every call appends the two pre messages. |
| ChatBody.SkipsLastUserMessage | controller/chat.go:286-316 | For the corrected build: previous_messages is every message but the last user message of the changed list, in order. The build as written differs only in Chinese mode with no user message; see the Findings row. |
| ChatBody.PrevFromSpec | controller/chat.go:290-316 | The building loop yields each message but the skipped one, in order. |
| ChatBody.WrapSystem | controller/chat.go:233-254 | Without a system message the instructions are prepended. Otherwise the length is unchanged. |
| ChatBody.WrapKeepsLastUser | controller/chat.go:233-254 | Wrapping keeps the last user message, one place later when the instructions are prepended. |
| ChatBody.ChatInputIsUserContent | controller/chat.go:212-222 | chat_input is the last user message's string content, or "hi!". In Chinese mode that text is query-escaped. Both builds agree on it. |
| ChatBody.PreMessagesAccumulate | controller/chat.go:259-286 | The request is changed in place, so each attempt appends the pre messages again. |
| ChatBody.ChineseSecondCallWraps | controller/chat.go:233-254 | In the Chinese mode, later calls wrap the existing system message. Each call adds exactly two messages. |
| ChatBody.AsWrittenDropsInstructions | controller/chat.go:246-254 | As written, a request without user messages loses the prepended instructions from previous_messages. |
| ChatBody.CorrectedKeepsInstructions | controller/chat.go:246-254 | Corrected, prepended instructions are always the first entry of previous_messages. |
| ChatBody.FirstWithRole | controller/chat.go:234-243 | The index found is the first message with that role. |
| Chat.Validate | controller/chat.go:39-74 | A failed bind gives "Invalid request parameters" with status 400, because BindJSON has already written 400 before the handler's own 500 answer; the body's code stays "500". Accepted requests have their empty-content messages removed. |
| Chat.ValidateSpec | controller/chat.go:52-74 | A request is accepted exactly when its model is registered and max_tokens ≤ 100000. The model check comes first, with "invalid_model", then "invalid_max_tokens". |
| Chat.ClassifyExact | controller/chat.go:124-146 | Usage-limit and Chinese verdicts are exactly their classifiers. "Unrecognised" means no classifier accepts. A retry happens only for usage-limit, invalid-token or rate-limit payloads. Each such payload is retried unless it is the Chinese-refusal literal. |
| Chat.UsageLimitBeforeNotLogin | controller/chat.go:125-138 | Every usage-limit notice is classified as a usage limit, even when it also matches the not-logged-in test, and such overlapping notices exist. |
| Chat.Lookup | controller/chat.go:604-617 | A lookup finds the last member with the key, or none. |
| Chat.EventStepCases | controller/chat.go:604-637 | A text event yields its string content, or nothing when the content is not a string. Other types yield nothing. A missing type or non-object data ends the stream. |
| Chat.SubTypeIgnored | controller/chat.go:622-633 | `sub_type` never changes the text. |
| Chat.DoneStops | controller/chat.go:590-595 | "[DONE]" ends the stream with or without "data: ". |
| Chat.ProcessData | controller/chat.go:590-602 | A "[DONE]" payload stops whatever the decoder says. |
| Chat.AttemptAggregates | controller/chat.go:117-183 | The answer is the in-order concatenation of the deltas of all events before the first ending event. The loop drains exactly when no event ends it; otherwise it ends as that event says. |
| Chat.RunAttemptPasses | controller/chat.go:118-182 | A non-ending event adds its delta and leaves the rest to the tail. |
| Chat.RunAttemptStops | controller/chat.go:124-147 | An ending event ends the loop with no further delta. |
| Chat.NeverDrained | controller/chat.go:184-186 | A well-terminated event sequence always ends the loop. |
| Chat.AfterSignal | controller/chat.go:126-143 | A signal never changes the token map. |
| Chat.Failover | controller/chat.go:92-199 | At most n attempts. Exhaustion means every attempt retried; an ended run retried all but the last. The token map is unchanged. |
| Chat.FailoverStep | controller/chat.go:184-195 | A retried attempt applies its signal, takes the next cookie and continues. |
| Chat.FailoverRoundRobin | controller/chat.go:92-195 | The i-th cookie tried is the one the i-th pick visits. |
| Chat.FailoverExhausted | controller/chat.go:196-199 | Exhaustion means all remaining attempts were made and each asked for a retry. |
| Chat.FailoverRemoves | controller/chat.go:126-130 | A cookie retried after a usage-limit notice is gone from the pool at the end. |
| Chat.FailoverKeepsPool | controller/chat.go:124-146 | Without a usage-limit notice the pool is unchanged. |
| Chat.LastLockOf | common/config/config.go:55-60 | The index is the last attempt rate-limited on that cookie, or -1 when there is none. Its expiry is the one the overwriting map store keeps. |
| Chat.FailoverLocks | controller/chat.go:139-143 | A cookie retried after a rate limit ends locked until the expiry of its own last rate-limited attempt, which comes at or after this one. A later lockout of the same cookie overwrites an earlier one. |
| Chat.FailoverKeepsLocks | controller/chat.go:124-146 | Without a rate limit the lockout map is unchanged. |
| Chat.RemovedStaysRemoved | controller/chat.go:126-130 | A removed cookie never returns during the loop. |
| Chat.LockStaysSet | controller/chat.go:139-143 | A lockout keeps its expiry for the rest of the loop unless its cookie is rate-limited again. |
| Chat.FailoverNeverDrained | controller/chat.go:184-186 | If no attempt drains, the loop never ends drained. |
| Chat.Try | controller/chat.go:93-110 | One attempt with the corrected body build. A marshal failure and a missing token are reported before anything is read. An attempt that reads never drains. |
| Chat.Snapshot | controller/chat.go:85-85 | The snapshot is the eligible cookies at index 0. Pool and tokens are unchanged. |
| Chat.Handle | controller/chat.go:83-92 | An empty snapshot gives "no cookies available" with no attempt. Otherwise at most one attempt per snapshot entry is made. |
| Chat.HandleRunsFailover | controller/chat.go:85-92 | A non-empty snapshot starts the loop at the entry `seed mod n`. |
| Chat.FailoverCycles | controller/chat.go:86-92 | From index s, attempt i uses entry s + i, wrapped once. |
| Chat.FailoverExhaustedTriedAll | controller/chat.go:92-198 | Exhaustion from a full snapshot means every entry was tried. |
| Chat.HandleRoundRobin | controller/chat.go:86-92 | The first cookie is entry `seed mod n`; retry i uses the entry i places on, wrapped once. |
| Chat.HandleExhaustedTriedAll | controller/chat.go:83-199 | "All cookies are temporarily unavailable." comes only after every eligible cookie was tried once and each asked for a retry. |
| Chat.ConcreteNeverDrains | controller/chat.go:93-183 | The concrete attempt never drains its channel. |
| Chat.HandleNeverDrained | controller/chat.go:445-530 | A request never ends with a drained stream. So the streaming step never asks gin to run it again. |
| Chat.ChatForOpenAI | controller/chat.go:35-81 | The handler fails exactly as validation does, with the same error. An accepted request ends with "no cookies available" exactly when the snapshot is empty, and makes at most one attempt per snapshot entry. |
| Chat.ChatForOpenAIRateLimitLasts | controller/chat.go:139-143 | Every cookie retried after a rate limit ends locked until RATE_LIMIT_COOKIE_LOCK_DURATION seconds past the clock reading of its last rate-limited attempt. With a non-decreasing clock it is locked at every instant from its own attempt's reading until that many seconds later. |

## Left out

- The TLS/JA3 client and the helpers of the HTTP fork that cycletls/index.go calls but does not show: `parseError`, `parseUserAgent`, `DecompressBody` and the cookie conversion. Their results are values of `Exchange`/`SseExchange`.
- The worker pool, `Queue`, `Init`, `Close`, the websocket endpoint, and the goroutine and channel plumbing of `DoSSE`. The event stream is a sequence. The backoff sleeps are not modelled; retries are counted.
- gin's output. This covers `sendSSEvent`, `handleDelta`, `handleMessageResult`, `createStreamResponse`, `c.Stream` and the JSON of the models endpoint. Each way a request ends is an `Outcome`, and the deltas are kept per attempt.
- Token counting (`model.CountTokenText`), timestamps and response ids.
- A non-streaming decode error writes a 500 and then a 200 answer. It is modelled as the `Failed` end only.
- Deltas already sent by a streaming attempt that is then retried are not retracted by the source. The model keeps the deltas per attempt and does not model what the client sees.
- JSON encoding and decoding, `url.QueryEscape`, base64 decoding, uuid generation and the Firebase token exchange (google-api/api.go is not part of this model). They are function parameters, with their failures as `Result`/`Option` values.
- Locks, `sync.Map` and concurrency: state is single-threaded. So the refresh job and requests do not interleave.
- `math/rand` is `seed % n`. The clock is a parameter in nanoseconds. That Go's monotonic clock never goes backwards is a hypothesis of the interval half of Chat.ChatForOpenAIRateLimitLasts; nothing else relies on it.
- Str.Lower: ASCII only; Go's `strings.ToLower` also folds non-ASCII letters. Header names and order lists are ASCII in practice.
- Upstream.NextRun: works on wall-clock minutes counted from a minute boundary. Time zones whose offset is not a whole number of hours, and `time.Date` normalisation, are not modelled.
- FileType.IsTextFile: the float ratio `nonPrintable/total < 0.05` is the exact integer test `20 * nonPrintable < total`.
- The long Chinese-mode prompt texts are parameters (`Prompts`), and only their placement is modelled.
- The Chinese-mode escaping of `previous_messages` contents is modelled through the `escape` parameter. No property is stated about escaped text.
- Crypto hashes, the regex `IsCloudflareChallenge`, `Obj2Bytes`, `GetUUID`, `IsServerError`'s callers (none in the core), `main.go`, `check/check.go` and the response helpers.
- Sse.DecodeLines: its own contract only promises a non-empty result. The frame shape is stated by Sse.DecodeFramed.
- Chat.Try: the handler builds its body with the corrected createRequestBody of the Findings row. So in Chinese mode with no user message, the modelled request keeps the instructions in `previous_messages`, where the code as written drops them. The as-written build is ChatBody.CreateRequestBodyAsWritten.
- Transport.ProcessRequest: always returns a prepared request. The process exits are not modelled: `log.Fatal` when the client cannot be built or `http.NewRequest` fails, and `panic` when `url.Parse` fails (cycletls/index.go:93-100, 162-165). URL parsing is outside the model, and the host is a parameter.
- Transport.ProcessRequest: upper-cases the method with Str.Upper, which is ASCII only; Go's `strings.ToUpper` also folds non-ASCII letters.

What the code does at three points:

- A "data: [DONE]" line is forwarded as a non-terminal event with data "[DONE]" before the closing event. See Sse.DataDoneLine.
- The closing event of a 2xx stream carries the data "[DONE]".
- Terminal signals are classified in the order usage limit, Chinese refusal (the "Bearer authentication is needed" literal), invalid token, rate limit.

## Findings

| source | as written | input that shows it | evidently intended | confidence | as-written member | corrected member |
|---|---|---|---|---|---|---|
| controller/chat.go:213-254 | `lastUserIndex` starts at -1 and is incremented whenever the Chinese instructions are prepended, so with no user message it becomes 0 and the loop at 291-294 skips index 0, the instructions themselves | Chinese mode on, messages `[]` (for example a single user message with empty content, removed by RemoveEmptyContentMessages) | shift the index only when a user message exists, so the instructions reach `previous_messages` | medium, not executed | ChatBody.AsWrittenDropsInstructions | ChatBody.CorrectedKeepsInstructions |
