/** The provider registry of config/llm.php, transcribed as data. */
module Config {
  import opened Outcomes

  datatype ProviderInfo = ProviderInfo(
    id: string,
    name: string,
    embeddingDimension: nat,
    supportedFeatures: seq<string>)

  /** The key used when `LLM_DEFAULT_PROVIDER` is not set. */
  const DefaultProvider: string := "gemini"

  const AvailableProviders: seq<ProviderInfo> := [
    ProviderInfo("gemini", "Google Gemini", 3072, ["chat", "embedding"]),
    ProviderInfo("huggingface", "Hugging Face (Free)", 384, ["chat", "embedding"])
  ]

  /** The registry entry with the given id. */
  function Lookup(id: string): (r: Option<ProviderInfo>)
    ensures r.Some? ==> r.value in AvailableProviders && r.value.id == id
    ensures r.None? ==> forall p :: p in AvailableProviders ==> p.id != id
  {
    if id == "gemini" then Some(AvailableProviders[0])
    else if id == "huggingface" then Some(AvailableProviders[1])
    else None
  }
}
