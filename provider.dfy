/** LLMServiceProvider (app/Providers/LLMServiceProvider.php): how the
    container binding for the LLM service interface picks an implementation. */
module Provider {
  import opened Outcomes
  import Config

  /** The two implementations of the LLM service interface. */
  datatype Service = GeminiService | HuggingFaceService

  /** What resolving the binding gives: a service, or the exception thrown for
      an unknown provider key, carrying its message. */
  datatype Resolution = Resolved(service: Service) | Unsupported(message: string)

  /** The registry id each implementation answers to. */
  function ServiceId(s: Service): string
  {
    match s
    case GeminiService => "gemini"
    case HuggingFaceService => "huggingface"
  }

  /** The provider key: the `chosenProvider` parameter if given, otherwise
      the configured default, which is "gemini" when `LLM_DEFAULT_PROVIDER`
      is unset (`configured` is `None`). */
  function ResolveKey(chosen: Option<string>, configured: Option<string>): (key: string)
    ensures chosen.Some? ==> key == chosen.value
    ensures chosen.None? && configured.Some? ==> key == configured.value
    ensures chosen.None? && configured.None? ==> key == Config.DefaultProvider
  {
    match chosen
    case Some(k) => k
    case None =>
      match configured
      case Some(k) => k
      case None => Config.DefaultProvider
  }

  /** The exception message for an unknown key. */
  function UnsupportedMessage(key: string): string
  {
    "LLM provider '" + key + "' not supported."
  }

  /** The factory closure registered as a singleton. */
  function Resolve(chosen: Option<string>, configured: Option<string>): Resolution
  {
    var key := ResolveKey(chosen, configured);
    if key == "gemini" then Resolved(GeminiService)
    else if key == "huggingface" then Resolved(HuggingFaceService)
    else Unsupported(UnsupportedMessage(key))
  }

  /** Resolution succeeds exactly for the keys that name an entry of the
      provider registry, and then gives the service with that id; otherwise
      the exception names the key. */
  lemma ResolvesExactlyRegistered(chosen: Option<string>, configured: Option<string>)
    ensures var key := ResolveKey(chosen, configured); var r := Resolve(chosen, configured);
      && (r.Resolved? <==> Config.Lookup(key).Some?)
      && (r.Resolved? ==> ServiceId(r.service) == key && Config.Lookup(key).value.id == key)
      && (r.Unsupported? ==> r.message == UnsupportedMessage(key))
  {
  }

  /** With no parameter and no configured default, the binding gives GeminiService. */
  lemma DefaultIsGemini()
    ensures Resolve(None, None) == Resolved(GeminiService)
    ensures ServiceId(GeminiService) == Config.DefaultProvider
  {
  }

  /** Distinct unknown keys give distinct messages: the message identifies the key. */
  lemma UnsupportedMessageInjective(k1: string, k2: string)
    requires UnsupportedMessage(k1) == UnsupportedMessage(k2)
    ensures k1 == k2
  {
    var prefix := "LLM provider '";
    var m1, m2 := UnsupportedMessage(k1), UnsupportedMessage(k2);
    assert |m1| == |prefix| + |k1| + 16;
    assert |m2| == |prefix| + |k2| + 16;
    assert m1[|prefix|..|prefix| + |k1|] == k1;
    assert m2[|prefix|..|prefix| + |k2|] == k2;
  }
}
