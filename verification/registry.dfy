/** The model registry of common/constants.go. */
module Registry {
  datatype ModelInfo = ModelInfo(model: string, maxTokens: int)

  /** The upper bound on `max_tokens` shared by every model. */
  const DefaultMaxTokens := 100000

  const ModelRegistry: map<string, ModelInfo> := map[
    "claude-3-7-sonnet" := ModelInfo("claude-3-7-sonnet", 100000),
    "claude-3-5-sonnet" := ModelInfo("claude-3-5-sonnet", 100000),
    "deepseek-r1" := ModelInfo("deepseek-r1-full", 100000),
    "deepseek-r1-32b" := ModelInfo("deepseek-r1", 100000),
    "gpt-4o" := ModelInfo("gpt-4o", 100000),
    "o1" := ModelInfo("o1", 100000),
    "o3-mini" := ModelInfo("o3-mini", 100000),
    "o3-mini-high" := ModelInfo("o3-mini-high", 100000),
    "gemini-2.5-pro" := ModelInfo("gemini-2.5-pro", 100000),
    "gemini-2.0-flash" := ModelInfo("gemini-2.0-flash", 100000)
  ]

  /** The published names, independently of the map. */
  const PublicNames: set<string> := {
    "claude-3-7-sonnet", "claude-3-5-sonnet", "deepseek-r1", "deepseek-r1-32b", "gpt-4o",
    "o1", "o3-mini", "o3-mini-high", "gemini-2.5-pro", "gemini-2.0-flash"
  }

  /** The upstream name of a public model name: the same name except for
      the two DeepSeek entries. */
  function UpstreamName(name: string): string {
    if name == "deepseek-r1" then "deepseek-r1-full"
    else if name == "deepseek-r1-32b" then "deepseek-r1"
    else name
  }

  /** The registry holds exactly the ten public names, each with the
      upstream name above and the shared token limit. */
  lemma RegistryContents()
    ensures ModelRegistry.Keys == PublicNames
    ensures |ModelRegistry| == 10
    ensures forall k :: k in ModelRegistry ==>
              ModelRegistry[k].model == UpstreamName(k) && ModelRegistry[k].maxTokens == DefaultMaxTokens
  {
    RegistryKeys();
    PublicNamesCount();
    RegistryValues();
  }

  lemma RegistryValues()
    ensures forall k :: k in ModelRegistry ==>
              ModelRegistry[k].model == UpstreamName(k) && ModelRegistry[k].maxTokens == DefaultMaxTokens
  {
    forall k | k in ModelRegistry
      ensures ModelRegistry[k].model == UpstreamName(k) && ModelRegistry[k].maxTokens == DefaultMaxTokens
    {
      RegistryKeys();
    }
  }

  lemma RegistryKeys()
    ensures ModelRegistry.Keys == PublicNames
  {
  }

  lemma PublicNamesCount()
    ensures |PublicNames| == 10
  {
  }

  /** GetModelInfo: the entry and true for a registered name, the zero value
      and false otherwise. */
  function GetModelInfo(name: string): (r: (ModelInfo, bool))
    ensures r.1 <==> name in PublicNames
    ensures r.1 ==> r.0.model == UpstreamName(name) && r.0.maxTokens == DefaultMaxTokens
    ensures !r.1 ==> r.0 == ModelInfo("", 0)
  {
    RegistryContents();
    if name in ModelRegistry then (ModelRegistry[name], true) else (ModelInfo("", 0), false)
  }

  /** GetModelList: every registered name once, in the unspecified order of
      Go's map iteration. */
  method GetModelList() returns (list: seq<string>)
    ensures |list| == 10
    ensures forall k :: k in list <==> k in PublicNames
    ensures forall i, j :: 0 <= i < j < |list| ==> list[i] != list[j]
  {
    RegistryKeys();
    PublicNamesCount();
    list := ListKeys(ModelRegistry.Keys);
  }

  /** Ranging over a map's keys: each key once, in an arbitrary order
      (modelled by an arbitrary choice at each step). */
  method ListKeys(keys: set<string>) returns (list: seq<string>)
    ensures |list| == |keys|
    ensures forall k :: k in list <==> k in keys
    ensures forall i, j :: 0 <= i < j < |list| ==> list[i] != list[j]
  {
    var rest := keys;
    list := [];
    while rest != {}
      invariant rest <= keys
      invariant forall k :: k in list <==> k in keys && k !in rest
      invariant forall i, j :: 0 <= i < j < |list| ==> list[i] != list[j]
      invariant |list| + |rest| == |keys|
      decreases |rest|
    {
      var k :| k in rest;
      list := list + [k];
      rest := rest - {k};
    }
  }
}
