/** createRequestBody of controller/chat.go: the upstream request body
    built from an OpenAI request, and the in-place changes it makes to that
    request. URL escaping and the long prompt texts of the Chinese mode are
    parameters. */
module ChatBody {
  import opened Wrappers
  import opened Messages
  import opened Registry

  /** What a `max_tokens` of 1 or less is replaced with. */
  const FallbackMaxTokens := 8000
  const DefaultChatInput := "hi!"
  /** The text between the instructions and the escaped system prompt. */
  const SystemWrap := "| !!!AND STRICTLY FOLLOW THE FOLLOWING SYSTEM-LEVEL INSTRUCTIONS.!!! |"
  const ConfirmPrompt := "Confirm you understand the output format."

  /** The Chinese-mode instructions and the canned assistant reply. */
  datatype Prompts = Prompts(instructions: string, acknowledgement: string)

  /** CHINESE_CHAT_ENABLED, url.QueryEscape and the prompt texts. */
  datatype BodyConfig = BodyConfig(chineseChat: bool, escape: string -> string, prompts: Prompts)

  /** One entry of `previous_messages`; `chatCommand` stands for the
      "command": "chat" and "mode": "freeChat" fields. */
  datatype PrevMessage = PrevMessage(role: string, content: Json, chatCommand: bool)

  /** The fields of the body that depend on the request. */
  datatype UpstreamBody = UpstreamBody(chatInput: string, previous: seq<PrevMessage>, customModel: string)

  /** The two "pre" messages appended on every call. */
  function PreMessages(p: Prompts): (r: seq<Message>)
    ensures |r| == 2 && r[0].role == "system" && r[1].role == "assistant"
    ensures forall i :: 0 <= i < 2 ==> r[i].kind == "pre"
  {
    [Message("system", JStr(ConfirmPrompt), "pre"), Message("assistant", JStr(p.acknowledgement), "pre")]
  }

  /** Index of the first message with role `role`. */
  function FirstWithRole(msgs: seq<Message>, role: string): (r: Option<int>)
    ensures r.Some? ==> 0 <= r.value < |msgs| && msgs[r.value].role == role
    ensures r.Some? ==> forall j :: 0 <= j < r.value ==> msgs[j].role != role
    ensures r.None? ==> forall j :: 0 <= j < |msgs| ==> msgs[j].role != role
  {
    if |msgs| == 0 then None
    else if msgs[0].role == role then Some(0)
    else match FirstWithRole(msgs[1..], role)
      case None => None
      case Some(i) => Some(i + 1)
  }

  /** The backwards search for the last user message: its index, or -1. */
  function LastUserIndex(msgs: seq<Message>): (r: int)
    ensures -1 <= r < |msgs|
  {
    match LastWithRole(msgs, "user")
    case None => -1
    case Some(i) => i
  }

  /** chat_input before escaping: the string content of the last user
      message, or "hi!". */
  function ChatInputOf(msgs: seq<Message>): string {
    match LastWithRole(msgs, "user")
    case None => DefaultChatInput
    case Some(i) => if msgs[i].content.JStr? then msgs[i].content.s else DefaultChatInput
  }

  /** The Chinese mode's system prompt handling: wrap the first system
      message's string content, or prepend the instructions as a new system
      message (reported by the flag). */
  function WrapSystem(cfg: BodyConfig, msgs: seq<Message>): (r: (seq<Message>, bool))
    ensures r.1 ==> r.0 == [Message("system", JStr(cfg.prompts.instructions), "")] + msgs
    ensures !r.1 ==> |r.0| == |msgs|
  {
    match FirstWithRole(msgs, "system")
    case Some(i) =>
      var m := msgs[i];
      (if m.content.JStr? then msgs[i := m.(content := JStr(cfg.prompts.instructions + SystemWrap + cfg.escape(m.content.s)))] else msgs, false)
    case None => ([Message("system", JStr(cfg.prompts.instructions), "")] + msgs, true)
  }

  /** One entry of previous_messages; in the Chinese mode string contents
      other than the first message's and the "pre" messages' are escaped. */
  function Prev(cfg: BodyConfig, m: Message, i: int): PrevMessage {
    var content := if m.content.JStr? && cfg.chineseChat && i > 0 && m.kind != "pre"
                   then JStr(cfg.escape(m.content.s)) else m.content;
    PrevMessage(m.role, content, m.role == "user")
  }

  /** The loop building previous_messages from index `k`, skipping `skip`. */
  function PrevFrom(cfg: BodyConfig, msgs: seq<Message>, k: nat, skip: int): (r: seq<PrevMessage>)
    requires k <= |msgs|
    decreases |msgs| - k
  {
    if k == |msgs| then []
    else (if k == skip then [] else [Prev(cfg, msgs[k], k)]) + PrevFrom(cfg, msgs, k + 1, skip)
  }

  /** Where message `i` lands when `skip` is left out. */
  function Slot(i: int, skip: int): int {
    if 0 <= skip < i then i - 1 else i
  }

  /** The same, for the loop started at index `k`. */
  function SlotFrom(i: int, k: int, skip: int): int {
    i - k - (if k <= skip < i then 1 else 0)
  }

  /** previous_messages is every message but the skipped one, in order. */
  lemma {:induction false} PrevFromSpec(cfg: BodyConfig, msgs: seq<Message>, k: nat, skip: int)
    requires k <= |msgs|
    ensures var r := PrevFrom(cfg, msgs, k, skip);
            && |r| == |msgs| - k - (if k <= skip < |msgs| then 1 else 0)
            && forall i :: k <= i < |msgs| && i != skip ==>
                 0 <= SlotFrom(i, k, skip) < |r| && r[SlotFrom(i, k, skip)] == Prev(cfg, msgs[i], i)
    decreases |msgs| - k
  {
    if k < |msgs| {
      PrevFromSpec(cfg, msgs, k + 1, skip);
      var r := PrevFrom(cfg, msgs, k, skip);
      var rest := PrevFrom(cfg, msgs, k + 1, skip);
      forall i | k < i < |msgs| && i != skip
        ensures 0 <= SlotFrom(i, k, skip) < |r| && r[SlotFrom(i, k, skip)] == Prev(cfg, msgs[i], i)
      {
        if k == skip {
          assert SlotFrom(i, k, skip) == SlotFrom(i, k + 1, skip);
        } else {
          assert SlotFrom(i, k, skip) == SlotFrom(i, k + 1, skip) + 1;
        }
      }
    }
  }

  /** The request body; `corrected` chooses how the index of the last user
      message follows a prepended system message (see the findings). */
  function Build(req: Request, info: ModelInfo, cfg: BodyConfig, corrected: bool): (r: (Request, UpstreamBody, int))
  {
    var maxTokens := if req.maxTokens <= 1 then FallbackMaxTokens else req.maxTokens;
    var last := LastUserIndex(req.messages);
    var input := ChatInputOf(req.messages);
    var wrapped := if cfg.chineseChat then WrapSystem(cfg, req.messages) else (req.messages, false);
    var skip := if wrapped.1 && (last >= 0 || !corrected) then last + 1 else last;
    var all := wrapped.0 + PreMessages(cfg.prompts);
    (req.(maxTokens := maxTokens, messages := all),
     UpstreamBody(if cfg.chineseChat then cfg.escape(input) else input, PrevFrom(cfg, all, 0, skip), info.model),
     skip)
  }

  /** createRequestBody as written: the index of the last user message is
      incremented whenever the instructions are prepended, even when it is
      -1 (no user message). Returns the changed request, the body and the
      skipped index. */
  function CreateRequestBodyAsWritten(req: Request, info: ModelInfo, cfg: BodyConfig): (r: (Request, UpstreamBody, int))
    ensures |r.0.messages| >= 2
    ensures r.0.messages[|r.0.messages| - 2..] == PreMessages(cfg.prompts)
  {
    Build(req, info, cfg, false)
  }

  /** createRequestBody with the index shifted only when there is a user
      message. */
  function CreateRequestBody(req: Request, info: ModelInfo, cfg: BodyConfig): (r: (Request, UpstreamBody, int))
    ensures |r.0.messages| >= 2
    ensures r.0.messages[|r.0.messages| - 2..] == PreMessages(cfg.prompts)
    ensures r.0.maxTokens == if req.maxTokens <= 1 then FallbackMaxTokens else req.maxTokens
    ensures r.0.model == req.model && r.0.stream == req.stream && r.1.customModel == info.model
  {
    Build(req, info, cfg, true)
  }

  /** The message skipped from previous_messages is the last user message
      of the changed list (none when there is no user message), and
      previous_messages holds every other message, in order. */
  lemma SkipsLastUserMessage(req: Request, info: ModelInfo, cfg: BodyConfig)
    ensures var r := CreateRequestBody(req, info, cfg);
            var all := r.0.messages;
            && r.2 == LastUserIndex(all)
            && |r.1.previous| == |all| - (if r.2 >= 0 then 1 else 0)
            && forall i :: 0 <= i < |all| && i != r.2 ==>
                 0 <= Slot(i, r.2) < |r.1.previous| && r.1.previous[Slot(i, r.2)] == Prev(cfg, all[i], i)
  {
    var r := CreateRequestBody(req, info, cfg);
    SkipIsLastUser(req, info, cfg);
    PrevFromSpec(cfg, r.0.messages, 0, r.2);
    assert r.1.previous == PrevFrom(cfg, r.0.messages, 0, r.2);
    assert forall i :: SlotFrom(i, 0, r.2) == Slot(i, r.2);
  }

  lemma SkipIsLastUser(req: Request, info: ModelInfo, cfg: BodyConfig)
    ensures var r := CreateRequestBody(req, info, cfg);
            r.2 == LastUserIndex(r.0.messages)
  {
    var msgs := req.messages;
    var wrapped := if cfg.chineseChat then WrapSystem(cfg, msgs) else (msgs, false);
    LastUserThroughAppend(wrapped.0, PreMessages(cfg.prompts));
    if cfg.chineseChat {
      WrapKeepsLastUser(cfg, msgs);
    }
  }

  /** Appending the pre messages, which are not user messages, keeps the
      last user message. */
  lemma LastUserThroughAppend(a: seq<Message>, pre: seq<Message>)
    requires forall j :: 0 <= j < |pre| ==> pre[j].role != "user"
    ensures LastUserIndex(a + pre) == LastUserIndex(a)
  {
    assert forall j :: 0 <= j < |a| ==> (a + pre)[j] == a[j];
    assert forall j :: |a| <= j < |a + pre| ==> (a + pre)[j] == pre[j - |a|];
  }

  /** Wrapping the system prompt keeps the last user message, one place
      later when the instructions are prepended. */
  lemma WrapKeepsLastUser(cfg: BodyConfig, msgs: seq<Message>)
    ensures var (w, prepended) := WrapSystem(cfg, msgs);
            var last := LastUserIndex(msgs);
            LastUserIndex(w) == if prepended && last >= 0 then last + 1 else last
  {
    var (w, prepended) := WrapSystem(cfg, msgs);
    var lm := LastWithRole(msgs, "user");
    var lw := LastWithRole(w, "user");
    if prepended {
      assert forall j :: 1 <= j < |w| ==> w[j] == msgs[j - 1];
      if lm.Some? {
        assert w[lm.value + 1].role == "user";
      }
      if lw.Some? {
        assert lw.value > 0;
        assert w[lw.value] == msgs[lw.value - 1];
      }
    } else {
      assert forall j :: 0 <= j < |w| ==> w[j].role == msgs[j].role;
      if lm.Some? { assert w[lm.value].role == "user"; }
      if lw.Some? { assert msgs[lw.value].role == "user"; }
    }
  }

  /** chat_input is the string content of the last user message when there
      is one, else "hi!"; the Chinese mode sends it query-escaped. Both
      builds agree on it. */
  lemma ChatInputIsUserContent(req: Request, info: ModelInfo, cfg: BodyConfig)
    ensures var uc := GetUserContent(req.messages);
            var input := if |uc| == 1 then uc[0] else DefaultChatInput;
            CreateRequestBody(req, info, cfg).1.chatInput == if cfg.chineseChat then cfg.escape(input) else input
    ensures CreateRequestBodyAsWritten(req, info, cfg).1.chatInput == CreateRequestBody(req, info, cfg).1.chatInput
  {
  }

  /** The request is changed in place, so every attempt appends the pre
      messages once more. */
  lemma PreMessagesAccumulate(req: Request, info: ModelInfo, cfg: BodyConfig)
    requires !cfg.chineseChat
    ensures var r1 := CreateRequestBody(req, info, cfg).0;
            var r2 := CreateRequestBody(r1, info, cfg).0;
            && r1.messages == req.messages + PreMessages(cfg.prompts)
            && r2.messages == req.messages + PreMessages(cfg.prompts) + PreMessages(cfg.prompts)
            && r2.maxTokens == r1.maxTokens
  {
  }

  /** In the Chinese mode a system message exists after the first call, so
      later calls wrap it again instead of prepending: each call then adds
      exactly the two pre messages. */
  lemma ChineseSecondCallWraps(req: Request, info: ModelInfo, cfg: BodyConfig)
    requires cfg.chineseChat
    ensures var r1 := CreateRequestBody(req, info, cfg).0;
            var r2 := CreateRequestBody(r1, info, cfg).0;
            |r2.messages| == |r1.messages| + 2
  {
    var r1 := CreateRequestBody(req, info, cfg).0;
    var w := WrapSystem(cfg, req.messages).0;
    assert r1.messages == w + PreMessages(cfg.prompts);
    assert r1.messages[|w|].role == "system";
    assert FirstWithRole(r1.messages, "system").Some?;
  }

  // ---------------------------------------------------------------------
  // The finding: the prepended instructions are dropped when there is no
  // user message.

  /** As written, a request whose messages are empty (for example after
      RemoveEmptyContentMessages dropped an empty user message) sends the
      Chinese instructions nowhere: index 0 is skipped. */
  lemma AsWrittenDropsInstructions(info: ModelInfo, cfg: BodyConfig)
    requires cfg.chineseChat
    ensures var req := Request("gpt-4o", false, [], 0);
            var (req', body, skip) := CreateRequestBodyAsWritten(req, info, cfg);
            && req'.messages[0] == Message("system", JStr(cfg.prompts.instructions), "")
            && skip == 0
            && LastUserIndex(req'.messages) == -1
            && body.previous == [PrevMessage("system", JStr(ConfirmPrompt), false),
                                 PrevMessage("assistant", JStr(cfg.prompts.acknowledgement), false)]
  {
    var req := Request("gpt-4o", false, [], 0);
    var (req', body, skip) := CreateRequestBodyAsWritten(req, info, cfg);
    var all := req'.messages;
    assert all == [Message("system", JStr(cfg.prompts.instructions), "")] + PreMessages(cfg.prompts);
    assert LastWithRole(all, "user").None?;
    assert skip == 0;
    assert PrevFrom(cfg, all, 3, 0) == [];
    assert PrevFrom(cfg, all, 2, 0) == [Prev(cfg, all[2], 2)];
    assert PrevFrom(cfg, all, 1, 0) == [Prev(cfg, all[1], 1), Prev(cfg, all[2], 2)];
    assert body.previous == PrevFrom(cfg, all, 1, 0);
  }

  /** Corrected: a prepended instructions message is always in
      previous_messages, as its first entry. */
  lemma CorrectedKeepsInstructions(req: Request, info: ModelInfo, cfg: BodyConfig)
    requires cfg.chineseChat
    requires FirstWithRole(req.messages, "system").None?
    ensures var (req', body, skip) := CreateRequestBody(req, info, cfg);
            |body.previous| > 0 && body.previous[0] == PrevMessage("system", JStr(cfg.prompts.instructions), false)
  {
    SkipsLastUserMessage(req, info, cfg);
    var (req', body, skip) := CreateRequestBody(req, info, cfg);
    assert req'.messages[0] == Message("system", JStr(cfg.prompts.instructions), "");
    assert skip != 0;
    assert body.previous[Slot(0, skip)] == Prev(cfg, req'.messages[0], 0);
  }
}
