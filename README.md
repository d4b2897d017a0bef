# chatbot-training-from-file, modelled in Dafny

The application is a Laravel retrieval-augmented chatbot.

- **`train`** takes an uploaded text and cuts it into overlapping word windows (`chunkText`). It embeds each window with `GeminiService::createEmbedding` and stores one `documents` row per nonempty embedding, all inside one database transaction.
- **`chat`** embeds the prompt, ranks stored rows by vector similarity, and sends their texts to `GeminiService::generateResponse`. The reply comes back as it is.
- **`HuggingFaceService`** is an alternative service. It has its own chunker defaults, a Mistral-style instruction prompt and a similarity query restricted to rows tagged with its provider name and dimension.
- **`LLMServiceProvider`** resolves the LLM service interface from a provider key.

This project models:

- the chunker, as one parameterised loop with both services' defaults;
- the prompts the services send;
- how each service turns an API outcome into an embedding or a reply;
- the values bound to the similarity queries;
- the controller's `train` loop over a transactional store, and `chat` as a function over oracles;
- the provider switch.

The remote APIs, the local transformer pipeline and the similarity search are oracles passed in as functions. Each returns an abstract outcome: it threw, or it answered with a successful or unsuccessful status and a payload that is present or missing.

Modules, one per file:

- `Text` (`text.dfy`): `explode` and `implode` on one character.
- `Chunker` (`chunker.dfy`): the shared chunking loop and its properties.
- `Outcomes` (`outcomes.dfy`): `Option` and the call-outcome type.
- `Documents` (`documents.dfy`): rows and the WHERE filter.
- `Config` (`config.dfy`): the provider registry of `config/llm.php`.
- `Gemini` (`gemini.dfy`): GeminiService.
- `HuggingFace` (`hugging_face.dfy`): HuggingFaceService.
- `Controller` (`controller.dfy`): ChatbotController.
- `Provider` (`provider.dfy`): LLMServiceProvider.

## Model

| member | source | states |
|---|---|---|
| Text.Split | app/Services/GeminiService.php:108 | `explode(' ', text)` always gives at least one piece |
| Text.SplitSeparated | app/Services/GeminiService.php:108 | no piece of an explode contains the separator |
| Text.JoinSplit | app/Services/GeminiService.php:108-114 | imploding the pieces of an explode gives the original string back |
| Text.SplitJoin | app/Services/GeminiService.php:113-114 | exploding an implode of a nonempty list of separator-free pieces gives the pieces back |
| Text.SplitPrefix | app/Services/GeminiService.php:108 | a separator-free prefix joins onto the first piece of the rest |
| Text.SplitAtSeparator | app/Services/GeminiService.php:108 | a separator-free prefix followed by the separator becomes a piece of its own |
| Text.SplitAround | app/Services/GeminiService.php:63 | a separator divides a string into the pieces on its two sides |
| Text.Join | app/Services/GeminiService.php:114 | `implode(sep, parts)`: the pieces with one separator between neighbours, and "" for none; `JoinSplit` and `SplitJoin` make it the inverse of `Split` |
| Text.JoinCons | app/Services/GeminiService.php:113-114 | `implode` puts one separator after the first piece when more follow |
| Text.SplitWhole | app/Services/GeminiService.php:63 | a string without the separator is a single piece |
| Chunker.Words | app/Services/HuggingFaceService.php:143 | the words of any text, even the empty one, are at least one and hold no space |
| Chunker.Slice | app/Services/HuggingFaceService.php:148 | `array_slice` takes at most `length` words when `length` is non-negative, and at least one when the offset is inside the array and `length` is at least one |
| Chunker.Chunks | app/Services/HuggingFaceService.php:143-153 | the chunks of the loop: one `implode(' ', array_slice(words, i, chunkSize))` per offset i = 0, step, 2·step, … below the word count |
| Chunker.ChunkText | app/Services/HuggingFaceService.php:141-154 | the while loop produces exactly `Chunks(Words(text), chunkSize, overlap)`; it is required to end, so `overlap < chunkSize` |
| Chunker.StartIsProduct | app/Services/HuggingFaceService.php:150 | the k-th value of `$i` is k * (chunkSize - overlap) |
| Chunker.StartMonotonic | app/Services/HuggingFaceService.php:150 | the window start offsets never decrease |
| Chunker.ChunksAtCons | app/Services/HuggingFaceService.php:148-149 | the chunk of one loop pass comes before those of the later passes |
| Chunker.OffsetsCount | app/Services/HuggingFaceService.php:147-151 | from offset i the loop visits the least number of offsets whose next offset reaches past the last word |
| Chunker.ChunkCount | app/Services/HuggingFaceService.php:143-152 | n words give ceil(n / (chunkSize - overlap)) chunks |
| Chunker.OffsetsAt | app/Services/HuggingFaceService.php:147-151 | from offset i, the k-th value of `$i` is i + k * step, and it is inside the words |
| Chunker.ChunkAt | app/Services/HuggingFaceService.php:147-149 | every emitted window starts inside the words (at or before the last word), and chunk k is the join of window k |
| Chunker.ChunkWords | app/Services/HuggingFaceService.php:148-150 | chunk k is `implode(' ', words[k*step .. min(k*step+chunkSize, n)])`; splitting it again gives exactly that slice of 1 to chunkSize words |
| Chunker.Coverage | app/Services/HuggingFaceService.php:147-151 | with a non-negative overlap every word index j lies in chunk j / step |
| Chunker.LastChunkEnds | app/Services/HuggingFaceService.php:147-151 | with a non-negative overlap the last chunk ends at the last word |
| Chunker.ChunkOverlap | app/Services/HuggingFaceService.php:148-150 | when chunk k is full and another follows, chunk k + 1 begins with the last min(overlap, n - (k+1)*step) words of chunk k |
| Chunker.NextWindow | app/Services/HuggingFaceService.php:148-150 | after a full window k, window k + 1 starts `step` words later, at least `overlap` words before the end |
| Chunker.StitchSnoc | app/Services/HuggingFaceService.php:148-150 | a window whose overlap-free tail continues the stitched prefix extends it |
| Chunker.WindowTail | app/Services/HuggingFaceService.php:148-150 | window k without its first `overlap` words is the stretch between the ends of windows k - 1 and k |
| Chunker.StitchAll | app/Services/HuggingFaceService.php:147-151 | windows whose overlap-free tails are consecutive stretches of the words stitch, m at a time, to the words up to the end of the m-th |
| Chunker.WindowsTile | app/Services/HuggingFaceService.php:147-151 | with a non-negative overlap the windows of the loop are such consecutive stretches, the first one whole |
| Chunker.Reassemble | app/Services/HuggingFaceService.php:143-153 | the first window, then each later window without its first `overlap` words, gives back all the words |
| Chunker.ReassembleText | app/Services/HuggingFaceService.php:141-154 | splitting every chunk, dropping the overlaps and imploding with ' ' restores the original text |
| Chunker.EmptyTextOneChunk | app/Services/HuggingFaceService.php:143-152 | the empty text yields exactly one chunk, the empty string |
| Chunker.ThreeWordsExample | app/Services/GeminiService.php:106-119 | "A B C" with two-word windows overlapping by one gives ["A B", "B C", "C"]: the last chunk holds only a word already in the chunk before it |
| Documents.WhereTagged | app/Services/HuggingFaceService.php:127 | `WHERE embedding_provider = ? AND embedding_dimension = ?` keeps exactly the rows carrying both tags, and nothing at all when no row carries them; NULL columns never match |
| Config.Lookup | config/llm.php:7-20 | the registry entry found has the requested id; no entry is found only when no entry has that id |
| Gemini.EmbeddingOf | app/Services/GeminiService.php:37-52 | the embedding is the delivered `embedding.values` unchanged, and `[]` on an exception, a non-success status or a missing field; it is nonempty exactly when a nonempty vector was delivered |
| Gemini.CreateEmbedding | app/Services/GeminiService.php:23-52 | the embedding of the text is nonempty exactly when the API delivered a nonempty vector, and is then that vector |
| Gemini.Reply | app/Services/GeminiService.php:74-90 | a non-success status gives "…saat ini.", a missing `candidates[0].content.parts[0].text` gives the shorter apology, an exception gives the error apology, and otherwise the reply is that text |
| Gemini.GenerationText | app/Services/GeminiService.php:63 | the single text part: "Context:", the context imploded with newlines, an empty line, then "Question: " and the prompt; its line structure is `GenerationTextSplit` |
| Gemini.GenerateResponse | app/Services/GeminiService.php:55-91 | the call is made on the generation text; a delivered text is the reply, and every failure gives one of the three apologies |
| Gemini.GenerationTextSplit | app/Services/GeminiService.php:63 | for a newline-free prompt and any context, the generation text reads as the line "Context:", the lines of the context imploded with newlines (an entry holding a newline spreads over several lines), an empty line and "Question: " + prompt |
| Gemini.GenerationTextLines | app/Services/GeminiService.php:63 | when no context entry and not the prompt holds a newline, the lines are "Context:", the context entries one per line in order (one empty line for no context), an empty line and "Question: " + prompt |
| Gemini.ReplyIsModelText | app/Services/GeminiService.php:74-90 | a reply that is none of the three apologies is the model's text from a successful call |
| Gemini.QueryBindings | app/Services/GeminiService.php:97-102 | the similarity query binds the limit and nothing else |
| Gemini.QueryCandidates | app/Services/GeminiService.php:97-102 | the query has no WHERE clause: it ranks the whole table |
| Gemini.QueryRanksEveryRow | app/Services/GeminiService.php:97-102 | the query is bound to [limit] only and ranks every row, whatever its provider and dimension tags, untagged rows included |
| Gemini.ChunkText | app/Services/GeminiService.php:106-119 | with defaults 800/100 the method is the shared chunker |
| Gemini.DefaultChunking | app/Services/GeminiService.php:106-116 | with the defaults, n words give ceil(n / 700) chunks; each splits back to its window of 1 to 800 words |
| HuggingFace.ProviderName | app/Services/HuggingFaceService.php:36-39 | `getProviderName()` is "huggingface" |
| HuggingFace.EmbeddingDimension | app/Services/HuggingFaceService.php:41-44 | `getEmbeddingDimension()` returns the field `embeddingDimension`, 384 (line 25); `IdentityMatchesRegistry` ties both to the registry |
| HuggingFace.IdentityMatchesRegistry | app/Services/HuggingFaceService.php:25-44 | the provider name "huggingface" and the dimension 384 agree with the registry entry in config/llm.php |
| HuggingFace.EmbeddingOf | app/Services/HuggingFaceService.php:46-64 | the embedding is the extractor's first vector, and `[]` when the extractor threw or returned no first element |
| HuggingFace.TurnText | app/Services/HuggingFaceService.php:74 | a history entry's text: "<s>[INST]" for the role "user" and "[/INST]" for any other, the content, then "</s>" |
| HuggingFace.HistoryText | app/Services/HuggingFaceService.php:72-76 | the history part of the prompt: the entries' texts in history order, "" for no history; `HistoryTextAppend` and `HistoryTextAt` state its structure |
| HuggingFace.QuestionTurn | app/Services/HuggingFaceService.php:77 | the closing instruction around the context and question; `QuestionTurnWrapsGeminiText` relates it to GeminiService's text |
| HuggingFace.HistoryTextSnoc | app/Services/HuggingFaceService.php:72-76 | one more history entry appends its text to the prompt |
| HuggingFace.HistoryTextAppend | app/Services/HuggingFaceService.php:72-76 | the history part of two histories in sequence is the first's text followed by the second's |
| HuggingFace.HistoryTextAt | app/Services/HuggingFaceService.php:73-75 | entry i contributes its text between those of the entries before and after it, in history order |
| HuggingFace.QuestionTurnWrapsGeminiText | app/Services/HuggingFaceService.php:77 | the closing instruction is "<s>[INST]" + GeminiService's generation text + "[/INST]" |
| HuggingFace.BuildPrompt | app/Services/HuggingFaceService.php:71-77 | the foreach appends, per entry, "<s>[INST]" for a user and "[/INST]" otherwise, then the content, then "</s>"; the closing instruction follows |
| HuggingFace.Reply | app/Services/HuggingFaceService.php:96-113 | a non-success status gives the "(HuggingFace API Error)" apology, a missing `[0]['generated_text']` gives the "(HuggingFace Response Error)" one, an exception gives the "(HuggingFace Exception)" one, and otherwise the reply is the generated text |
| HuggingFace.ReplyIsModelText | app/Services/HuggingFaceService.php:96-113 | a reply that is none of the three apologies is the generated text from a successful call |
| HuggingFace.ReplyDistinguishesFailures | app/Services/HuggingFaceService.php:96-113 | two failed calls with the same reply failed in the same way: the apology identifies the failure |
| HuggingFace.GenerateResponse | app/Services/HuggingFaceService.php:66-114 | the reply is chosen from the chat call made on the assembled prompt |
| HuggingFace.QueryBindings | app/Services/HuggingFaceService.php:130 | the query's placeholders are bound to the provider name, the embedding dimension and the limit, in that order |
| HuggingFace.QueryCandidates | app/Services/HuggingFaceService.php:124-130 | the rows passing `WHERE embedding_provider = ? AND embedding_dimension = ?` under those bindings |
| HuggingFace.QueryIsolation | app/Services/HuggingFaceService.php:117-131 | the query is bound to exactly ["huggingface", 384, limit], so it ranks exactly the rows tagged with that provider and dimension |
| HuggingFace.ChunkText | app/Services/HuggingFaceService.php:141-154 | with defaults 1000/100 the method is the shared chunker |
| HuggingFace.AgreesWithGemini | app/Services/GeminiService.php:106-119 | with equal arguments the two services' chunkers give the same chunks |
| HuggingFace.DefaultChunking | app/Services/HuggingFaceService.php:141-152 | with the defaults, n words give ceil(n / 900) chunks of 1 to 1000 words |
| Controller.DocumentStore.BeginTransaction | app/Http/Controllers/ChatbotController.php:44 | opens a transaction: the rows stay as they are and become the snapshot a rollback returns to |
| Controller.DocumentStore.Create | app/Http/Controllers/ChatbotController.php:56-60 | `Document::create` appends exactly the given row to the table |
| Controller.DocumentStore.Commit | app/Http/Controllers/ChatbotController.php:70 | closes the transaction and keeps the rows written since it began |
| Controller.DocumentStore.Rollback | app/Http/Controllers/ChatbotController.php:80 | inside a transaction the rows return to those present at its start; outside one nothing changes |
| Controller.ChunkRecord | app/Http/Controllers/ChatbotController.php:56-60 | the row for one chunk: the file name, the chunk text and its embedding, with provider and dimension unset |
| Controller.StoredRows | app/Http/Controllers/ChatbotController.php:46-67 | the rows `train` stores: one `ChunkRecord` per chunk with a nonempty embedding, in chunk order; `StoredRowsByIndex` and `StoredRowsShape` state this |
| Controller.StoredRowsSnoc | app/Http/Controllers/ChatbotController.php:47-67 | one more chunk adds its record exactly when its embedding is nonempty |
| Controller.EmbeddedIndices | app/Http/Controllers/ChatbotController.php:48-50 | the positions of the chunks with a nonempty embedding, in increasing order, and no others |
| Controller.StoredRowsByIndex | app/Http/Controllers/ChatbotController.php:46-67 | stored row k is the record of the k-th chunk with a nonempty embedding, so there is one row per such chunk, in chunk order |
| Controller.StoredRowsShape | app/Http/Controllers/ChatbotController.php:56-60 | every stored row carries the uploaded file name, one of the chunks and a nonempty embedding, and leaves the provider and dimension unset |
| Controller.TrainedRowsInvisibleToHuggingFace | app/Http/Controllers/ChatbotController.php:56-60 | rows stored by `train` are never candidates of HuggingFaceService's similarity query |
| Controller.TrainedRowsVisibleToGemini | app/Services/GeminiService.php:97-102 | every row `train` stores is a candidate of GeminiService's similarity query, whatever the table held before |
| Controller.EmbedAndStore | app/Http/Controllers/ChatbotController.php:46-67 | the foreach faults exactly when some nonempty-embedding chunk's insert throws. Without a fault it appends exactly the stored rows, in chunk order, and counts them. With one it stops at the first failing chunk i, having appended and counted exactly the rows of the chunks before i |
| Controller.NoFaultBelowAll | app/Http/Controllers/ChatbotController.php:47-68 | the loop passes every chunk below n without an exception exactly when no insert below n throws |
| Controller.Train | app/Http/Controllers/ChatbotController.php:22-88 | all or nothing. After a commit the table gained exactly the stored rows, in chunk order, and successCount counts them. On any exception, whether from validation, an insert or the commit, the table is as before. It fails exactly when an insert or the commit throws |
| Controller.ContextOf | app/Http/Controllers/ChatbotController.php:127 | the context is the `text` of each search row, in the returned order |
| Controller.Chat | app/Http/Controllers/ChatbotController.php:95-148 | a validation exception or a search exception gives the error apology; an empty prompt embedding gives "…saat ini."; otherwise the reply is GeminiService's reply on the prompt and the rows' texts |
| Controller.ChatShortCircuit | app/Http/Controllers/ChatbotController.php:105-114 | with an empty prompt embedding the reply is "…saat ini." whatever the search and generation oracles are, so neither one is consulted |
| Controller.ChatForwardsGeneration | app/Http/Controllers/ChatbotController.php:120-135 | when generation delivers a text, `chat` returns it verbatim |
| Controller.RepliesCoincideWithGemini | app/Http/Controllers/ChatbotController.php:112 | the controller's two apologies are GeminiService's non-success and exception replies |
| Provider.ResolveKey | app/Providers/LLMServiceProvider.php:18 | the key is the `chosenProvider` parameter, else the configured default, else "gemini" |
| Provider.Resolve | app/Providers/LLMServiceProvider.php:20-27 | the switch: "gemini" gives GeminiService, "huggingface" HuggingFaceService, any other key the exception; `ResolvesExactlyRegistered` ties it to the registry |
| Provider.ResolvesExactlyRegistered | app/Providers/LLMServiceProvider.php:20-27 | resolution succeeds exactly for the registry ids; it then gives the service with that id, and otherwise an error naming the key |
| Provider.DefaultIsGemini | app/Providers/LLMServiceProvider.php:18-22 | with no parameter and no configured default, the binding gives GeminiService |
| Provider.UnsupportedMessage | app/Providers/LLMServiceProvider.php:26 | the exception text "LLM provider '<key>' not supported."; `UnsupportedMessageInjective` shows it names the key |
| Provider.UnsupportedMessageInjective | app/Providers/LLMServiceProvider.php:26 | distinct unknown keys give distinct messages |

## Left out

- The HTTP calls and the local `transformers-php` pipeline are oracles. So is the similarity search: its pgvector distance, `ORDER BY` and `LIMIT` run in the database over floating point. Vectors have `real` entries.
- The vector literal strings built with `implode` over floats are not modelled. Neither is the `Document` model's accessor and mutator pair, which is float rendering and parsing (app/Models/Document.php).
- The migration, the `vector(3072)` column and its mismatch with the `vector(384)` cast are left out. A faulty insert is an oracle `insertFails` in `Controller.Train`.
- Request validation, text and PDF extraction, logging, `back()->with(...)` redirects and `Inertia::render` are left out. Validation or extraction failing is the `None` input of `Train` and `Chat`. The flash messages of `train` are the fixed success text and the error text built from the exception message; the model drops both. `TrainOutcome` tells success from failure, and its `Trained(successCount, totalChunks)` carries the two counts that `train` only logs (app/Http/Controllers/ChatbotController.php:72-75).
- The Laravel container's singleton caching is left out, and so are `config()` and `env()`. The configured default key is an input of `Provider.Resolve`.
- The transaction is modelled by `DocumentStore` as a snapshot taken at `beginTransaction` and restored by `rollback`. Nested transactions and database isolation are not modelled. After a failed commit the rollback is taken to restore the snapshot.
- `\Throwable` versus `\Exception`: HuggingFaceService's embedding catches every error, the other methods catch only exceptions. The model does not distinguish them; an uncaught PHP `Error` is not modelled.
- PHP's loose `switch` comparison is left out. For the non-numeric labels "gemini" and "huggingface" it coincides with string equality.
- Chunker.ChunkText: requires `overlap < chunkSize`. For larger overlaps the PHP loop never advances and never ends, which a terminating model cannot represent. The only call, `chunkText($text)` in app/Http/Controllers/ChatbotController.php:38, uses GeminiService's defaults 800 and 100, which satisfy it; nothing calls HuggingFaceService's chunker.
- PHP integer overflow of the loop index is not modelled; integers are unbounded.
- Neither service retries a failed call; there is no back-off.
- `chunkText` splits on the single character ' ' (`explode(' ', …)`), so newlines and tabs stay inside words.
- `train` leaves `embedding_provider` and `embedding_dimension` unset (app/Http/Controllers/ChatbotController.php:56-60), although the columns exist (database/migrations/2024_03_20_000000_create_documents_table.php:21-22) and HuggingFaceService's query filters on them (`Controller.StoredRowsShape`, `Controller.TrainedRowsInvisibleToHuggingFace`).
- Controller.EmbedAndStore: the embedding oracle is a function of the chunk text alone, so equal chunks get equal outcomes within one run, and a call cannot fail (say, rate-limited) where an earlier call on the same text succeeded. The same holds for `Controller.Train`, `Controller.StoredRows` and the prompt embedding of `Controller.Chat`.
- `GeminiService` does not implement the service interface. The controller uses it directly, so no provider-isolation property is claimed for `chat`. Isolation is stated only for HuggingFaceService's query bindings (`HuggingFace.QueryIsolation`), and `Controller.TrainedRowsInvisibleToHuggingFace` shows that rows stored by `train` never reach that query, while `Controller.TrainedRowsVisibleToGemini` shows that they all reach GeminiService's.
