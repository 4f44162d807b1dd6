/** The OpenAI-style request and the message-list transformations of
    model/openai.go. A message's `content` is whatever JSON decoding
    produced, so it is a `Json` value; JSON encoding and decoding are
    parameters. */
module Messages {
  import opened Wrappers
  import opened Str

  /** A decoded JSON value (numbers are kept as their text). */
  datatype Json =
    | JNull
    | JBool(b: bool)
    | JNum(text: string)
    | JStr(s: string)
    | JArr(items: seq<Json>)
    | JObj(fields: seq<(string, Json)>)

  /** OpenAIChatMessage; `kind` is the untagged `Type` field. */
  datatype Message = Message(role: string, content: Json, kind: string)

  /** OpenAIChatCompletionRequest (the temperature is not modelled). */
  datatype Request = Request(model: string, stream: bool, messages: seq<Message>, maxTokens: int)

  /** Index of the last message with role `role`. */
  function LastWithRole(msgs: seq<Message>, role: string): (r: Option<int>)
    ensures r.Some? ==> 0 <= r.value < |msgs| && msgs[r.value].role == role
    ensures r.Some? ==> forall j :: r.value < j < |msgs| ==> msgs[j].role != role
    ensures r.None? ==> forall j :: 0 <= j < |msgs| ==> msgs[j].role != role
  {
    if |msgs| == 0 then None
    else if msgs[|msgs| - 1].role == role then Some(|msgs| - 1)
    else LastWithRole(msgs[..|msgs| - 1], role)
  }

  /** AddMessage: `m` goes in front of the existing messages. */
  function AddMessage(msgs: seq<Message>, m: Message): (r: seq<Message>)
    ensures |r| == |msgs| + 1 && r[0] == m && r[1..] == msgs
  {
    [m] + msgs
  }

  /** The position PrependMessagesFromJSON inserts at: just after the last
      system message, or the front. */
  function InsertIndex(msgs: seq<Message>): (k: nat)
    ensures k <= |msgs|
    ensures k > 0 ==> msgs[k - 1].role == "system"
    ensures forall j :: k <= j < |msgs| ==> msgs[j].role != "system"
  {
    match LastWithRole(msgs, "system")
    case None => 0
    case Some(i) => i + 1
  }

  /** PrependMessagesFromJSON; `parsed` is what json.Unmarshal made of the
      text. On a decode error the messages are unchanged and the error is
      returned. */
  function PrependMessagesFromJSON(msgs: seq<Message>, parsed: Result<seq<Message>, string>): (r: (seq<Message>, Option<string>))
    ensures parsed.Err? ==> r == (msgs, Some(parsed.error))
    ensures parsed.Ok? ==> r.1.None? && |r.0| == |msgs| + |parsed.value|
  {
    match parsed
    case Err(e) => (msgs, Some(e))
    case Ok(added) =>
      var k := InsertIndex(msgs);
      (msgs[..k] + added + msgs[k..], None)
  }

  /** The parsed messages sit, in order, right after the last system
      message (or at the front); taking them out gives the old list back. */
  lemma PrependPlacement(msgs: seq<Message>, added: seq<Message>)
    ensures var r := PrependMessagesFromJSON(msgs, Ok(added)).0;
            exists k :: 0 <= k <= |msgs|
              && r[k..k + |added|] == added
              && r[..k] + r[k + |added|..] == msgs
              && (k == 0 || msgs[k - 1].role == "system")
              && (forall j :: k <= j < |msgs| ==> msgs[j].role != "system")
  {
    var k := InsertIndex(msgs);
    var r := msgs[..k] + added + msgs[k..];
    assert r[k..k + |added|] == added;
    assert r[..k] == msgs[..k];
    assert r[k + |added|..] == msgs[k..];
    assert msgs[..k] + msgs[k..] == msgs;
  }

  /** The insertion point is unique: it is 0 exactly when there is no system
      message. */
  lemma InsertIndexZeroIff(msgs: seq<Message>)
    ensures InsertIndex(msgs) == 0 <==> forall j :: 0 <= j < |msgs| ==> msgs[j].role != "system"
  {
  }

  function SystemToUser(m: Message): Message {
    if m.role == "system" then m.(role := "user") else m
  }

  /** SystemMessagesProcess: every "system" role becomes "user". */
  function SystemMessagesProcess(msgs: seq<Message>): (r: seq<Message>)
    ensures |r| == |msgs|
    ensures forall i :: 0 <= i < |msgs| ==> r[i] == SystemToUser(msgs[i])
  {
    if |msgs| == 0 then [] else [SystemToUser(msgs[0])] + SystemMessagesProcess(msgs[1..])
  }

  /** No system message is left; contents, kinds and other roles are kept;
      a second pass changes nothing. */
  lemma SystemMessagesProcessSpec(msgs: seq<Message>)
    ensures var r := SystemMessagesProcess(msgs);
            && (forall i :: 0 <= i < |r| ==> r[i].role != "system")
            && (forall i :: 0 <= i < |r| ==> r[i].content == msgs[i].content && r[i].kind == msgs[i].kind)
            && (forall i :: 0 <= i < |r| && msgs[i].role != "system" ==> r[i].role == msgs[i].role)
            && SystemMessagesProcess(r) == r
  {
    var r := SystemMessagesProcess(msgs);
    var rr := SystemMessagesProcess(r);
    assert forall i :: 0 <= i < |r| ==> rr[i] == r[i];
  }

  /** FilterUserMessage: drop everything before the last user message. */
  function FilterUserMessage(msgs: seq<Message>): (r: seq<Message>)
    ensures |r| <= |msgs| && r == msgs[|msgs| - |r|..]
  {
    match LastWithRole(msgs, "user")
    case None => msgs
    case Some(i) => msgs[i..]
  }

  /** With a user message, the result starts with the last one and holds
      no other; without one nothing changes. Filtering twice is filtering
      once. */
  lemma FilterUserMessageSpec(msgs: seq<Message>)
    ensures var r := FilterUserMessage(msgs);
            && ((forall j :: 0 <= j < |msgs| ==> msgs[j].role != "user") ==> r == msgs)
            && ((exists j :: 0 <= j < |msgs| && msgs[j].role == "user") ==>
                  |r| > 0 && r[0].role == "user" && forall j :: 0 < j < |r| ==> r[j].role != "user")
            && FilterUserMessage(r) == r
  {
    var r := FilterUserMessage(msgs);
    match LastWithRole(msgs, "user")
    case None =>
    case Some(i) =>
      assert forall j :: 0 < j < |r| ==> r[j] == msgs[i + j];
      assert LastWithRole(r, "user") == Some(0);
  }

  /** GetUserContent: the string content of the last user message, if that
      content is a string. */
  function GetUserContent(msgs: seq<Message>): (r: seq<string>)
    ensures |r| <= 1
  {
    match LastWithRole(msgs, "user")
    case None => []
    case Some(i) => if msgs[i].content.JStr? then [msgs[i].content.s] else []
  }

  lemma GetUserContentSpec(msgs: seq<Message>)
    ensures var r := GetUserContent(msgs);
            |r| == 1 <==> exists i :: 0 <= i < |msgs| && msgs[i].role == "user" && msgs[i].content.JStr?
                                        && forall j :: i < j < |msgs| ==> msgs[j].role != "user"
    ensures var r := GetUserContent(msgs);
            |r| == 1 ==> exists i :: 0 <= i < |msgs| && msgs[i].role == "user" && msgs[i].content == JStr(r[0])
  {
    match LastWithRole(msgs, "user")
    case None =>
    case Some(i) =>
      if exists i' :: 0 <= i' < |msgs| && msgs[i'].role == "user" && msgs[i'].content.JStr?
                      && forall j :: i' < j < |msgs| ==> msgs[j].role != "user" {
        var i' :| 0 <= i' < |msgs| && msgs[i'].role == "user" && msgs[i'].content.JStr?
                  && forall j :: i' < j < |msgs| ==> msgs[j].role != "user";
        assert i' == i;
      }
  }

  // ---------------------------------------------------------------------
  // GetPreviousMessagePair

  /** strings.NewReplacer(`\n`, "", `\t`, "", `\r`, ""): one left-to-right
      pass deleting the two-character escapes. */
  function RemoveEscapes(s: string): (r: string)
    ensures |r| <= |s|
  {
    if |s| >= 2 && s[0] == '\\' && (s[1] == 'n' || s[1] == 't' || s[1] == 'r') then RemoveEscapes(s[2..])
    else if |s| == 0 then ""
    else [s[0]] + RemoveEscapes(s[1..])
  }

  /** Text without backslashes passes through unchanged. */
  lemma {:induction false} RemoveEscapesNoBackslash(s: string)
    requires forall i :: 0 <= i < |s| ==> s[i] != '\\'
    ensures RemoveEscapes(s) == s
  {
    if |s| > 0 {
      RemoveEscapesNoBackslash(s[1..]);
    }
  }

  /** The pass is not idempotent: deleting `\n` can bring a backslash next
      to an 'n', and a JSON-escaped backslash before an 'n' loses its
      second half. */
  lemma RemoveEscapesNotIdempotent()
    ensures RemoveEscapes("\\\\nn") == "\\n"
    ensures RemoveEscapes(RemoveEscapes("\\\\nn")) == ""
  {
    assert RemoveEscapes("n") == "n";
    assert "\\\\nn"[1..][2..] == "n";
    assert "\\n"[2..] == "";
  }

  /** The largest i in [1, |msgs| - 2], searching down from `i`, with an
      assistant message at i right after a user message. */
  function PairFrom(msgs: seq<Message>, i: int): (r: Option<nat>)
    requires i < |msgs|
    ensures r.Some? ==> 1 <= r.value <= i && msgs[r.value].role == "assistant" && msgs[r.value - 1].role == "user"
    ensures r.Some? ==> forall j :: r.value < j <= i ==> !(msgs[j].role == "assistant" && msgs[j - 1].role == "user")
    ensures r.None? ==> forall j :: 1 <= j <= i ==> !(msgs[j].role == "assistant" && msgs[j - 1].role == "user")
    decreases i
  {
    if i <= 0 then None
    else if msgs[i].role == "assistant" && msgs[i - 1].role == "user" then Some(i)
    else PairFrom(msgs, i - 1)
  }

  /** The pair GetPreviousMessagePair looks for: only when there are at least
      three messages and the last is from the user. */
  function PreviousPairIndex(msgs: seq<Message>): (r: Option<nat>)
    ensures r.Some? ==> |msgs| >= 3 && msgs[|msgs| - 1].role == "user" && 1 <= r.value <= |msgs| - 2
  {
    if |msgs| < 3 || msgs[|msgs| - 1].role != "user" then None
    else PairFrom(msgs, |msgs| - 2)
  }

  /** GetPreviousMessagePair: the latest user/assistant pair before the
      final user message, JSON-encoded by `marshal` and stripped of escapes. */
  function GetPreviousMessagePair(msgs: seq<Message>, marshal: seq<Message> -> Result<string, string>): (r: (string, bool, Option<string>))
    ensures r.1 ==> |msgs| >= 3 && msgs[|msgs| - 1].role == "user" && r.2.None?
    ensures |msgs| < 3 || msgs[|msgs| - 1].role != "user" ==> r == ("", false, None)
    ensures !r.1 ==> r.0 == ""
  {
    match PreviousPairIndex(msgs)
    case None => ("", false, None)
    case Some(i) =>
      match marshal([msgs[i - 1], msgs[i]])
      case Err(e) => ("", false, Some(e))
      case Ok(text) => (RemoveEscapes(text), true, None)
  }

  /** The pair found is a user message followed by an assistant message,
      no later such pair sits before the final message, and a pair is
      reported exactly when one exists and encodes. */
  lemma PreviousPairIsLatest(msgs: seq<Message>, marshal: seq<Message> -> Result<string, string>)
    ensures var p := PreviousPairIndex(msgs);
            p.Some? ==> && msgs[p.value - 1].role == "user" && msgs[p.value].role == "assistant"
                        && forall j :: p.value < j <= |msgs| - 2 ==> !(msgs[j].role == "assistant" && msgs[j - 1].role == "user")
    ensures var p := PreviousPairIndex(msgs);
            p.None? && |msgs| >= 3 && msgs[|msgs| - 1].role == "user" ==>
              forall j :: 1 <= j <= |msgs| - 2 ==> !(msgs[j].role == "assistant" && msgs[j - 1].role == "user")
    ensures var p := PreviousPairIndex(msgs);
            var r := GetPreviousMessagePair(msgs, marshal);
            && (r.1 <==> p.Some? && marshal([msgs[p.value - 1], msgs[p.value]]).Ok?)
            && (r.1 ==> r.0 == RemoveEscapes(marshal([msgs[p.value - 1], msgs[p.value]]).value))
  {
  }

  // ---------------------------------------------------------------------
  // RemoveEmptyContentMessages

  /** nil, "" and [] count as empty content. */
  predicate IsEmptyContent(c: Json) {
    c == JNull || c == JStr("") || c == JArr([])
  }

  /** RemoveEmptyContentMessages */
  function RemoveEmptyContentMessages(msgs: seq<Message>): (r: seq<Message>)
    ensures |r| <= |msgs|
    ensures forall i :: 0 <= i < |r| ==> !IsEmptyContent(r[i].content)
    ensures forall m :: m in r ==> m in msgs
  {
    if |msgs| == 0 then []
    else if IsEmptyContent(msgs[0].content) then RemoveEmptyContentMessages(msgs[1..])
    else [msgs[0]] + RemoveEmptyContentMessages(msgs[1..])
  }

  /** Every non-empty message is kept, and a list without empty content
      comes back unchanged; hence the filter is idempotent. */
  lemma {:induction false} RemoveEmptyKeepsNonEmpty(msgs: seq<Message>)
    requires forall i :: 0 <= i < |msgs| ==> !IsEmptyContent(msgs[i].content)
    ensures RemoveEmptyContentMessages(msgs) == msgs
  {
    if |msgs| > 0 {
      RemoveEmptyKeepsNonEmpty(msgs[1..]);
    }
  }

  lemma RemoveEmptyIdempotent(msgs: seq<Message>)
    ensures RemoveEmptyContentMessages(RemoveEmptyContentMessages(msgs)) == RemoveEmptyContentMessages(msgs)
  {
    RemoveEmptyKeepsNonEmpty(RemoveEmptyContentMessages(msgs));
  }

  /** Order is kept: the result is the non-empty messages, in order, which
      the count of each message shows. */
  lemma {:induction false} RemoveEmptyCounts(msgs: seq<Message>, m: Message)
    ensures multiset(RemoveEmptyContentMessages(msgs))[m] == if IsEmptyContent(m.content) then 0 else multiset(msgs)[m]
  {
    if |msgs| > 0 {
      RemoveEmptyCounts(msgs[1..], m);
      assert msgs == [msgs[0]] + msgs[1..];
    }
  }
}
