/** HuggingFaceService (app/Services/HuggingFaceService.php): the local
    feature-extraction pipeline and the remote chat API are oracles; the
    prompt it assembles, how it picks a reply, its identity constants, the
    values bound to its similarity query and its chunker are modelled. */
module HuggingFace {
  import opened Outcomes
  import opened Text
  import opened Documents
  import Chunker
  import Config
  import Gemini

  // ---------------------------------------------------------------------------
  // Identity

  function ProviderName(): string { "huggingface" }

  function EmbeddingDimension(): nat { 384 }

  /** The service's name and dimension are those of the registry entry for
      "huggingface" in the configuration. */
  lemma IdentityMatchesRegistry()
    ensures Config.Lookup(ProviderName()).Some?
    ensures Config.Lookup(ProviderName()).value.embeddingDimension == EmbeddingDimension()
  {
  }

  // ---------------------------------------------------------------------------
  // createEmbedding

  /** What the local extractor did: it threw, or it returned a list whose first
      element is present (`Some`) or missing. */
  datatype ExtractorOutcome = ExtractorThrew | Extracted(first: Option<seq<real>>)

  /** `createEmbedding`: the extractor's first vector, or `[]` when it threw or
      returned nothing. */
  function EmbeddingOf(o: ExtractorOutcome): (v: seq<real>)
    ensures o.Extracted? && o.first.Some? ==> v == o.first.value
    ensures v != [] <==> o.Extracted? && o.first.Some? && o.first.value != []
  {
    match o
    case ExtractorThrew => []
    case Extracted(first) =>
      match first
      case Some(vs) => vs
      case None => []
  }

  // ---------------------------------------------------------------------------
  // generateResponse: the prompt

  /** One entry of the conversation history. */
  datatype Turn = Turn(role: string, content: string)

  /** A user entry opens an instruction, any other closes one; either way it
      carries its content and ends the sentence. */
  function TurnText(t: Turn): string
  {
    (if t.role == "user" then "<s>[INST]" else "[/INST]") + t.content + "</s>"
  }

  /** The history part of the prompt, one entry after another. */
  function HistoryText(history: seq<Turn>): string
  {
    if history == [] then ""
    else HistoryText(history[..|history| - 1]) + TurnText(history[|history| - 1])
  }

  /** The instruction that closes the prompt. */
  function QuestionTurn(prompt: string, context: seq<string>): string
  {
    "<s>[INST]Context:\n" + Join(context, '\n') + "\n\nQuestion: " + prompt + "[/INST]"
  }

  /** The last entry's text ends the history text. */
  lemma HistoryTextSnoc(h: seq<Turn>, last: Turn)
    ensures HistoryText(h + [last]) == HistoryText(h) + TurnText(last)
  {
    assert (h + [last])[..|h|] == h;
  }

  /** The history of two conversations one after the other is the history
      text of the first followed by that of the second. */
  lemma {:induction false} HistoryTextAppend(a: seq<Turn>, b: seq<Turn>)
    ensures HistoryText(a + b) == HistoryText(a) + HistoryText(b)
    decreases |b|
  {
    if b == [] {
      assert a + b == a;
    } else {
      var b', last := b[..|b| - 1], b[|b| - 1];
      assert b == b' + [last];
      HistoryTextAppend(a, b');
      HistoryTextAppendStep(a, b', last);
    }
  }

  /** The inductive step of HistoryTextAppend: one more entry at the end. */
  lemma HistoryTextAppendStep(a: seq<Turn>, b: seq<Turn>, last: Turn)
    requires HistoryText(a + b) == HistoryText(a) + HistoryText(b)
    ensures HistoryText(a + (b + [last])) == HistoryText(a) + HistoryText(b + [last])
  {
    var x, y, t := HistoryText(a), HistoryText(b), TurnText(last);
    assert HistoryText(a + (b + [last])) == (x + y) + t by {
      assert a + (b + [last]) == (a + b) + [last];
      HistoryTextSnoc(a + b, last);
    }
    assert HistoryText(b + [last]) == y + t by {
      HistoryTextSnoc(b, last);
    }
    SeqAssoc(x, y, t);
  }

  /** A history is its entries before i, entry i, and its entries after i. */
  lemma SplitAtIndex(history: seq<Turn>, i: nat)
    requires i < |history|
    ensures history == history[..i] + ([history[i]] + history[i + 1..])
  {
    assert history[i..] == [history[i]] + history[i + 1..];
    assert history == history[..i] + history[i..];
  }

  /** Entry i contributes its text between those of the entries before and after it. */
  lemma HistoryTextAt(history: seq<Turn>, i: nat)
    requires i < |history|
    ensures HistoryText(history)
            == HistoryText(history[..i]) + TurnText(history[i]) + HistoryText(history[i + 1..])
  {
    SplitAtIndex(history, i);
    HistoryTextAround(history[..i], history[i], history[i + 1..]);
  }

  lemma HistoryTextAround(pre: seq<Turn>, m: Turn, post: seq<Turn>)
    ensures HistoryText(pre + ([m] + post)) == HistoryText(pre) + TurnText(m) + HistoryText(post)
  {
    var a, t, p := HistoryText(pre), TurnText(m), HistoryText(post);
    assert HistoryText([m]) == t by {
      HistoryTextSnoc([], m);
      assert [] + [m] == [m];
    }
    assert HistoryText([m] + post) == t + p by {
      HistoryTextAppend([m], post);
    }
    assert HistoryText(pre + ([m] + post)) == a + (t + p) by {
      HistoryTextAppend(pre, [m] + post);
    }
    assert a + (t + p) == a + t + p;
  }


  /** The closing instruction wraps exactly the text GeminiService sends. */
  lemma QuestionTurnWrapsGeminiText(prompt: string, context: seq<string>)
    ensures QuestionTurn(prompt, context) == "<s>[INST]" + Gemini.GenerationText(prompt, context) + "[/INST]"
  {
  }

  /** The prompt built by `generateResponse`: the history, entry by entry,
      then the closing instruction. */
  method BuildPrompt(prompt: string, context: seq<string>, history: seq<Turn>) returns (full: string)
    ensures full == HistoryText(history) + QuestionTurn(prompt, context)
  {
    full := "";
    var i := 0;
    while i < |history|
      invariant 0 <= i <= |history|
      invariant full == HistoryText(history[..i])
    {
      var h := history[i];
      var piece := (if h.role == "user" then "<s>[INST]" else "[/INST]") + h.content + "</s>";
      assert history[..i + 1] == history[..i] + [h];
      HistoryTextSnoc(history[..i], h);
      full := full + piece;
      i := i + 1;
    }
    assert history[..i] == history;
    var question := "<s>[INST]Context:\n" + Join(context, '\n') + "\n\nQuestion: " + prompt + "[/INST]";
    full := full + question;
  }

  // ---------------------------------------------------------------------------
  // generateResponse: the reply

  const ApiErrorReply: string := "Maaf, saya tidak bisa memproses permintaan Anda saat ini (HuggingFace API Error)."
  const ResponseErrorReply: string := "Maaf, saya tidak bisa memproses permintaan Anda (HuggingFace Response Error)."
  const ExceptionReply: string := "Maaf, terjadi kesalahan saat memproses permintaan Anda (HuggingFace Exception)."

  /** The reply chosen from the chat call's outcome, whose payload is
      `[0]['generated_text']`. */
  function Reply(o: CallOutcome<string>): (r: string)
    ensures o.Threw? ==> r == ExceptionReply
    ensures o.Responded? && !o.successful ==> r == ApiErrorReply
    ensures o.Responded? && o.successful && o.payload.None? ==> r == ResponseErrorReply
    ensures o.Delivered() ==> r == o.payload.value
  {
    match o
    case Threw => ExceptionReply
    case Responded(ok, text) =>
      if !ok then ApiErrorReply else
      match text
      case Some(t) => t
      case None => ResponseErrorReply
  }

  /** A reply equal to none of the three fallbacks is the generated text,
      taken from a successful call. */
  lemma ReplyIsModelText(o: CallOutcome<string>)
    requires Reply(o) !in {ApiErrorReply, ResponseErrorReply, ExceptionReply}
    ensures o.Delivered() && Reply(o) == o.payload.value
  {
  }

  /** The three fallbacks tell the three failures apart. */
  lemma ReplyDistinguishesFailures(o: CallOutcome<string>, o': CallOutcome<string>)
    requires !o.Delivered() && !o'.Delivered() && Reply(o) == Reply(o')
    ensures o.Threw? == o'.Threw?
    ensures o.Responded? ==> o'.Responded? && o.successful == o'.successful
  {
  }

  /** `generateResponse(prompt, context, history)` with the chat API as the
      oracle `api`, which receives the assembled prompt. */
  method GenerateResponse(prompt: string, context: seq<string>, history: seq<Turn>,
                          api: string -> CallOutcome<string>) returns (reply: string)
    ensures reply == Reply(api(HistoryText(history) + QuestionTurn(prompt, context)))
  {
    var full := BuildPrompt(prompt, context, history);
    reply := Reply(api(full));
  }

  // ---------------------------------------------------------------------------
  // findSimilarDocuments

  /** The values bound to the similarity query's placeholders, in order. */
  function QueryBindings(limit: int := 5): seq<Binding>
  {
    [StrParam(ProviderName()), IntParam(EmbeddingDimension()), IntParam(limit)]
  }

  /** The rows the similarity query ranks, filtered with its own bindings. */
  function QueryCandidates(rows: seq<Document>, limit: int := 5): seq<Document>
  {
    var b := QueryBindings(limit);
    WhereTagged(rows, b[0].s, b[1].n)
  }

  /** The query is bound to exactly [provider name, dimension, limit], so it
      ranks exactly the rows tagged "huggingface" with dimension 384. */
  lemma QueryIsolation(rows: seq<Document>, limit: int)
    ensures QueryBindings(limit) == [StrParam("huggingface"), IntParam(384), IntParam(limit)]
    ensures forall d :: d in QueryCandidates(rows, limit) <==>
      d in rows && d.provider == Some("huggingface") && d.dimension == Some(384)
  {
  }

  // ---------------------------------------------------------------------------
  // chunkText

  /** `chunkText(text, chunkSize = 1000, overlap = 100)`: the shared chunker
      with this service's defaults. */
  method ChunkText(text: string, chunkSize: int := 1000, overlap: int := 100) returns (chunks: seq<string>)
    requires overlap < chunkSize
    ensures chunks == Chunker.Chunks(Chunker.Words(text), chunkSize, overlap)
  {
    chunks := Chunker.ChunkText(text, chunkSize, overlap);
  }

  /** Given the same arguments, this chunker and GeminiService's agree: both
      wrappers ensure `chunks == Chunker.Chunks(Chunker.Words(text), ...)`,
      so only their default arguments differ. */
  method AgreesWithGemini(text: string, chunkSize: int, overlap: int) returns (same: bool)
    requires overlap < chunkSize
    ensures same
  {
    var mine := ChunkText(text, chunkSize, overlap);
    var theirs := Gemini.ChunkText(text, chunkSize, overlap);
    same := mine == theirs;
  }

  /** With the defaults, n words give ceil(n / 900) chunks of at most 1000
      words each. */
  lemma DefaultChunking(text: string)
    ensures var words := Chunker.Words(text); var chunks := Chunker.Chunks(words, 1000, 100);
      && |chunks| == Chunker.CeilDiv(|words|, 900)
      && forall k :: 0 <= k < |chunks| ==> 1 <= |Split(chunks[k], ' ')| <= 1000
  {
    var words := Chunker.Words(text);
    Chunker.ChunkCount(words, 1000, 100);
    forall k | 0 <= k < |Chunker.Chunks(words, 1000, 100)|
      ensures 1 <= |Split(Chunker.Chunks(words, 1000, 100)[k], ' ')| <= 1000
    {
      Chunker.ChunkWords(words, k, 1000, 100);
    }
  }
}
