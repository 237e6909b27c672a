# API documentation assistant: retrieval engine and answer extraction

This project is a Dafny model of the two core components of a small
question-answering bot over API documentation.

- **The documentation processor** (`DocsProcessor` in `docs/docs_processor.py`):
  - It reads two JSON API documents, trying four text encodings in turn.
  - It flattens each document into a list of provenance-tagged text chunks
    (`"{source} - {path}: {text}"`). An object holding a marker key
    (`endpoint`, `description`, `parameters`, `example`) also yields one chunk
    with its whole rendering.
  - It embeds the chunk list.
  - At query time it picks the `top_k` chunks most similar to the question and
    keeps only those mentioning an endpoint, then those mentioning a parameter
    token, joined by newlines.
- **The answer handler** (`LLMHandler.generate_response` in `llm/model_handler.py`):
  - It builds the prompt around the retrieved context and the question.
  - It extracts the answer from the generated text, falls back to the worked
    curl example when that answer is empty, and to a fixed error reply on any
    failure.

Files:

- `wrappers.dfy` (`Wrappers`): the `Option` type.
- `text.dfy` (`Text`): Python's `strip`, `isspace`, `lower`, `in`, `split`,
  `"sep".join` and `str(int)` on strings.
- `json.dfy` (`JsonValue`): parsed JSON values, chunk paths and texts.
  `Flattened` is the specification of what one `flatten_json` call appends.
- `docs_processor.dfy` (`DocsProcessing`): the `DocsProcessor` class. It has
  the fields `docs` and `embeddings`, and the methods `SafeReadJson`,
  `FlattenJson` (with its two loops) and `ProcessDocs`, each proved against a
  specification function.
- `retrieval.dfy` (`Retrieval`): `find_relevant_context` as functions, with the
  argsort, the top-K slice, the two tiers and the join.
- `model_handler.dfy` (`ModelHandler`): the prompt, the extraction and
  `generate_response` as functions.

The foreign calls are function parameters:

- `open` + `json.load` for one encoding: `load`.
- `json.dumps(obj, indent=2)`: `dumps`.
- The embedding model's `encode`: `encode`.
- The text-generation pipeline: `pipeline`.
- The cosine similarities: a sequence of ordered scores.
- The order `np.argsort` returns: a parameter constrained by `IsArgsort`.

Behaviour of the code worth knowing, which the model keeps:

- `np.argsort` is not stable, so tied scores may come out in any order. The
  model accepts every order that sorts the scores (`IsArgsort`) and does not
  fix one tie-break. `StableArgsort` shows that such an order always exists.
- Both tiers are filtered from the whole top-K list. A chunk that matches both
  tiers is therefore in the context twice, and non-matching chunks are dropped
  (`PrioritizedCount`).
- `top_k = 0` keeps every index, because `[-0:]` is the whole list.
- When both documents are read but produce no chunk, `docs` is already reset
  to the empty list, and `embeddings` is not reset: it stays `None` on a fresh
  processor, and after an earlier successful load it still holds the old
  embeddings, now beside an empty `docs`.
- Nothing in `find_relevant_context` checks that an index has been built. A
  missing index surfaces as an exception from the similarity call.

## Model

| member | source | states |
|---|---|---|
| DocsProcessing.DocsProcessor.constructor | docs/docs_processor.py:8-12 | a new processor has no chunks and no embeddings |
| DocsProcessing.DocsProcessor.SafeReadJson | docs/docs_processor.py:14-28 | the loop over the encodings returns exactly `ReadJson`: the first parsed document, the first uncaught exception, or the "could not read" error |
| DocsProcessing.ReadJsonFirstDecisive | docs/docs_processor.py:16-28 | there is a first attempt that is not a decode or parse failure, and it decides the result: its parsed value or its exception; if no such attempt exists among the four, the result is the error naming the file |
| DocsProcessing.ReadJsonFailsIffAllCaught | docs/docs_processor.py:18-28 | the "could not read" error is raised if and only if all four encodings end in a Unicode or JSON decode error |
| DocsProcessing.DocsProcessor.FlattenJson | docs/docs_processor.py:37-55 | one call only appends: the new `docs` is the old one followed by `Flattened(obj, …)`, and `embeddings` is untouched |
| DocsProcessing.DocsProcessor.FlattenFields | docs/docs_processor.py:43-48 | the loop over the object's items appends the chunks of every field in key order |
| DocsProcessing.DocsProcessor.FlattenItems | docs/docs_processor.py:50-55 | the loop over the array appends the chunks of every element in index order |
| DocsProcessing.DocsProcessor.FlattenChild | docs/docs_processor.py:45-55 | for a field (:45-48) and for an array element (:52-55) alike, a container child is flattened under its path and a scalar child appends one leaf chunk with its `str()` text |
| DocsProcessing.DocsProcessor.ProcessDocs | docs/docs_processor.py:30-72 | a failure reading either document gives the wrapped error and leaves `docs` and `embeddings` untouched. Otherwise `docs` becomes the dataset chunks followed by the enrichment chunks. An empty corpus gives the wrapped "no content" error; a non-empty one is embedded |
| DocsProcessing.CorpusOrder | docs/docs_processor.py:57-58 | every dataset chunk precedes every enrichment chunk, and each starts with its own source label |
| JsonValue.Flattened | docs/docs_processor.py:38-41 | an object with a marker key contributes its whole-object chunk first, before any chunk of its fields; a scalar contributes nothing |
| JsonValue.FlattenedCount | docs/docs_processor.py:38-55 | the number of chunks appended is the number of marker objects plus the number of scalars sitting inside an object or array, counted independently of the chunk texts |
| JsonValue.EmptyDocuments | docs/docs_processor.py:37-55 | a top-level scalar, `{}` and `[]` yield no chunk |
| JsonValue.FlattenedProvenance | docs/docs_processor.py:41-55 | every chunk of a call starts with `source + " - " + prefix` |
| JsonValue.ScalarFieldChunk | docs/docs_processor.py:43-48 | a scalar field yields a leaf chunk at the bare key under an empty prefix, and at `prefix.key` otherwise |
| JsonValue.ScalarItemChunk | docs/docs_processor.py:50-55 | a scalar array element yields a leaf chunk at `prefix[i]`, also under an empty prefix |
| Text.NatToStringRoundTrip | docs/docs_processor.py:51 | the decimal index written into an array path reads back as the index |
| Retrieval.StableArgsortCorrect | docs/docs_processor.py:77 | the insertion-sort argsort lists every index once, by ascending score, with ties in index order |
| Retrieval.StableArgsortIsArgsort | docs/docs_processor.py:77 | every score vector has an order that `IsArgsort` accepts, so the requirement on argsort's order can be met |
| Retrieval.TopKSelection | docs/docs_processor.py:77 | for `top_k >= 1` the selection has `min(top_k, n)` distinct in-range indices, listed by non-increasing score, and no unselected index scores above a selected one |
| Retrieval.TopKDominates | docs/docs_processor.py:77 | for every `top_k`, including zero and negative values, no index left out scores above an index taken |
| Retrieval.TopKZeroKeepsAll | docs/docs_processor.py:77 | `top_k = 0` selects every index |
| Retrieval.RelevantSelection | docs/docs_processor.py:77-79 | for `top_k >= 1` the selected chunks are `min(top_k, n)` chunks at distinct indices, listed by non-increasing score, and no chunk left out scores above one taken |
| Retrieval.FilterCount | docs/docs_processor.py:82-83 | a comprehension with a condition keeps every occurrence of a matching chunk and no other chunk |
| Retrieval.FilterIsSubsequence | docs/docs_processor.py:82-83 | a comprehension with a condition keeps the order of what it keeps |
| Retrieval.PrioritizedTiers | docs/docs_processor.py:82-85 | all endpoint-tier chunks precede all parameter-tier chunks, and the output is at most twice as long as the selection |
| Retrieval.PrioritizedOrder | docs/docs_processor.py:82-85 | each tier keeps the top-K order of its chunks |
| Retrieval.PrioritizedCount | docs/docs_processor.py:82-85 | each chunk appears once for every tier it matches: twice if it matches both, never if it matches neither |
| Retrieval.MatchedChunkNonEmpty | docs/docs_processor.py:82-83 | a chunk matching a tier token is not empty |
| Retrieval.NoSurvivorsIff | docs/docs_processor.py:82-85 | nothing survives exactly when no selected chunk matches either tier |
| Retrieval.ContextContents | docs/docs_processor.py:74-86 | the context contains every surviving chunk; each survivor is a corpus chunk matching a tier; the context is empty if and only if no selected chunk matches a tier |
| Text.Strip | llm/model_handler.py:86 | the result is the input with a leading and a trailing run of whitespace removed and nothing else: it is a slice `s[i..j]` with only whitespace before `i` and after `j`, and it neither starts nor ends with whitespace. It is empty exactly when the input is all whitespace |
| Text.StripIdempotent | llm/model_handler.py:86 | stripping twice is stripping once |
| Text.StripKeepsSubstrings | llm/model_handler.py:86 | any substring of the stripped text is a substring of the input |
| Text.Contains | llm/model_handler.py:85 | `t in s` holds exactly when `t` occurs at some index of `s` |
| Text.Split | llm/model_handler.py:86-88 | `split` gives at least one piece, and at least two exactly when the separator occurs |
| Text.JoinSplit | llm/model_handler.py:86-88 | joining the pieces of a split with the separator gives back the text |
| Text.SplitPiecesLackSeparator | llm/model_handler.py:86-88 | no piece of a split contains the separator |
| Text.SplitLastPiece | llm/model_handler.py:86 | the piece `[-1]` is the text after an occurrence of the separator that has none after it |
| Text.SplitSecondPiece | llm/model_handler.py:88 | the piece `[1]` lies between the first occurrence of the separator (no occurrence starts before it, overlapping or not) and the next one, or the end of the text |
| Text.JoinContainsParts | docs/docs_processor.py:85 | the joined text contains every part |
| Text.JoinEmptyIff | docs/docs_processor.py:85 | joining non-empty parts gives the empty string exactly when there are no parts |
| ModelHandler.PromptPlacement | llm/model_handler.py:64-79 | the context is inserted verbatim right after the introduction, and the question verbatim after the context |
| ModelHandler.Extract | llm/model_handler.py:84-88 | an extracted answer is never whitespace-only and is its own stripped form |
| ModelHandler.ResponseBranch | llm/model_handler.py:85-86 | with a "Response:" present, the answer is the stripped text after its last occurrence and holds no "Response:" |
| ModelHandler.QuestionBranchFails | llm/model_handler.py:87-88 | without "Response:", the segment after the last "Question:" holds no "Question:", and is the whole text when there is none. Extraction fails with the IndexError exactly when that segment has no "To search for" |
| ModelHandler.QuestionBranchAnswer | llm/model_handler.py:88 | without "Response:", a successful extraction is the stripped text between the first "To search for" of that segment (none starts earlier) and the next one, or the end |
| ModelHandler.GenerateResponse | llm/model_handler.py:41-103 | the reply is never empty and has no surrounding whitespace. A pipeline failure or a missing "To search for" gives the error reply. An empty extracted answer gives the curl example; otherwise the answer is returned |
| ModelHandler.Reply | llm/model_handler.py:84-103 | the reply for what the pipeline gave is never empty and has no surrounding whitespace, whichever path produced it: the error reply, the curl example or a stripped answer |
| ModelHandler.EchoedPromptAnswer | llm/model_handler.py:64-86 | when the pipeline returns the prompt followed by a continuation without "Response:", the answer is the stripped continuation |
| DocsProcessing.ReadFrom | docs/docs_processor.py:18-28 | the attempts from the `i`-th encoding on: a parsed value returns, a Unicode or JSON decode error moves to the next encoding, any other exception propagates, and after the fourth comes the error naming the file; its properties are in `ReadJsonFirstDecisive` and `ReadJsonFailsIffAllCaught` |
| DocsProcessing.ReadJson | docs/docs_processor.py:14-28 | what `safe_read_json` returns or raises; `SafeReadJson` is proved equal to it, and `ReadJsonFirstDecisive` and `ReadJsonFailsIffAllCaught` state its behaviour |
| DocsProcessing.Corpus | docs/docs_processor.py:57-58 | the chunk list of a successful load, the dataset's chunks and then the enrichment's; `CorpusOrder` states the order and labels, and `ProcessDocs` sets `docs` to it |
| JsonValue.ScalarText | docs/docs_processor.py:48 | Python's `str()` of a JSON scalar (`True`, `False`, `None`, a string itself, a number's printed text); used by `ScalarFieldChunk` and `ScalarItemChunk` |
| JsonValue.HasMarker | docs/docs_processor.py:40 | an object holds one of the keys `endpoint`, `description`, `parameters`, `example`; `Flattened` and `FlattenedCount` state what a marker object contributes |
| JsonValue.KeyPath | docs/docs_processor.py:44 | the path of a field, the bare key under an empty prefix and `prefix.key` otherwise; stated through the chunks in `ScalarFieldChunk` |
| JsonValue.IndexPath | docs/docs_processor.py:51 | the path of an array element, `prefix[i]` also under an empty prefix; stated in `ScalarItemChunk`, with the index readable back by `NatToStringRoundTrip` |
| JsonValue.Chunk | docs/docs_processor.py:41-55 | the chunk text `source - path: text`; `FlattenedProvenance` and `CorpusOrder` state its source label |
| Retrieval.SliceStart | docs/docs_processor.py:77 | where Python's `[-top_k:]` starts, for positive, zero and negative `top_k`; its effect is stated in `TopKSelection`, `TopKDominates` and `TopKZeroKeepsAll` |
| Retrieval.TopIndices | docs/docs_processor.py:77 | `np.argsort(similarities)[-top_k:][::-1]` given argsort's order; `TopKSelection`, `TopKDominates` and `TopKZeroKeepsAll` state what it selects |
| Retrieval.Relevant | docs/docs_processor.py:79 | the chunks at the selected indices; `RelevantSelection` states which chunks these are |
| Retrieval.MatchesEndpoint | docs/docs_processor.py:82 | the case-insensitive test for `endpoint` on the whole chunk text, source label and path included; `PrioritizedTiers`, `PrioritizedCount` and `MatchedChunkNonEmpty` use it |
| Retrieval.MatchesParameter | docs/docs_processor.py:83 | the case-insensitive test for any of `parameter`, `filter`, `type`, `value`; `PrioritizedTiers`, `PrioritizedCount` and `MatchedChunkNonEmpty` use it |
| Retrieval.Prioritized | docs/docs_processor.py:82-85 | `endpoint_chunks + parameter_chunks`, both filtered from the whole selection; `PrioritizedTiers`, `PrioritizedOrder`, `PrioritizedCount` and `NoSurvivorsIff` state its contents |
| Retrieval.FindRelevantContext | docs/docs_processor.py:74-86 | `find_relevant_context` from the scores and argsort's order, `top_k` defaulting to 8; `ContextContents` and `RelevantSelection` state what the context holds |
| Text.LowerChar | docs/docs_processor.py:82-83 | a capital ASCII letter becomes its own small letter (`'E'` becomes `'e'`), every other character is kept, and no capital is left |
| Text.Lower | docs/docs_processor.py:82-83 | `lower()` on ASCII letters, keeping the length and lowering each character by `LowerChar`; `LowerKeepsSubstrings` and `LowerIdempotent` are its partners |
| Text.LowerKeepsSubstrings | docs/docs_processor.py:82-83 | the tier tests are case-insensitive: an occurrence of a word in a chunk, in any case, is an occurrence of the lowered word in the lowered chunk |
| Text.LowerIdempotent | docs/docs_processor.py:82-83 | lowering a lowered text changes nothing |
| Retrieval.EndpointAnyCase | docs/docs_processor.py:82 | a chunk containing any spelling that lowers to `endpoint` (`Endpoint`, `EndPoint`, `ENDPOINT`, …) is in the endpoint tier |
| Retrieval.MixedCaseEndpoint | docs/docs_processor.py:82 | an instance: a chunk containing `EndPoint` is in the endpoint tier |
| Retrieval.IsArgsort | docs/docs_processor.py:77 | the orders `np.argsort` may return: every index exactly once, by ascending score; `StableArgsortIsArgsort` shows one exists for every score vector, and `TopKSelection` and `RelevantSelection` rest on it |
| Retrieval.Reverse | docs/docs_processor.py:77 | `[::-1]`: the same indices last to first, which is what makes `TopKSelection` list them by non-increasing score |
| Retrieval.Filter | docs/docs_processor.py:82-83 | a comprehension with a condition keeps only matching elements; `FilterCount` and `FilterIsSubsequence` state that it keeps each with its multiplicity and in order |
| Text.IsSpace | llm/model_handler.py:86-90 | the whitespace characters Python's `strip()` removes and `isspace()` accepts; `Strip`'s slice contract is stated with it |
| Text.IsBlank | llm/model_handler.py:90 | `answer.isspace()`: non-empty and whitespace only; `Strip` never returns such a text, so `Reply` falls back to the curl example only for an empty answer |
| ModelHandler.ResponseSegment | llm/model_handler.py:86 | `split("Response:")[-1]`; `ResponseBranch` states it is the text after the last "Response:" |
| ModelHandler.QuestionSegment | llm/model_handler.py:88 | `split("Question:")[-1]`; `QuestionBranchFails` and `QuestionBranchAnswer` state what it holds and when `[1]` of its split fails |
| DocsProcessing.Caught | docs/docs_processor.py:22-26 | the two exceptions the loop catches and moves past, a Unicode decode error and a JSON decode error; `ReadJsonFirstDecisive` and `ReadJsonFailsIffAllCaught` state how they decide the result |
| JsonValue.IsContainer | docs/docs_processor.py:45-52 | `isinstance(value, (dict, list))`: an object or an array; `FlattenChild` and `ChildChunks` recurse into exactly these and give a leaf chunk for anything else |
| JsonValue.ChildChunks | docs/docs_processor.py:45-55 | the chunks of one field value or array element: a container is flattened under its path, a scalar gives one leaf chunk; `ScalarFieldChunk` and `ScalarItemChunk` state the leaf case |
| JsonValue.FieldChunks | docs/docs_processor.py:43-48 | the chunks of the first `n` fields in key order; `FlattenFields` keeps `docs` equal to the old list followed by them, and `FlattenedCount` counts them |
| JsonValue.ItemChunks | docs/docs_processor.py:50-55 | the chunks of the first `n` elements in index order; `FlattenItems` keeps `docs` equal to the old list followed by them, and `FlattenedCount` counts them |
| Text.NatToString | docs/docs_processor.py:51 | the decimal digits of an array index, one digit only below 10 and no leading zero; `NatToStringRoundTrip` reads them back as the index |
| DocsProcessing.ErrorText | docs/docs_processor.py:28 | `str(e)` of a read failure: the "Could not read file" text naming the path, or the uncaught exception's own message; `ProcessDocs` wraps it as at :72 |
| Text.Join | docs/docs_processor.py:85 | `sep.join(parts)`; `JoinSplit`, `JoinContainsParts` and `JoinEmptyIff` state its properties |
| ModelHandler.ExampleJson | llm/model_handler.py:43-62 | the example request body, character for character |
| ModelHandler.CurlExample | llm/model_handler.py:91-96 | the fallback answer, which is also the format shown in the prompt; `CurlExampleStripped`, used by `Reply`, shows it has no surrounding whitespace |
| ModelHandler.ErrorReply | llm/model_handler.py:103 | the reply on any failure; `GenerateResponse` states when it is returned |
| ModelHandler.Prompt | llm/model_handler.py:64-79 | the prompt template with the context and the question inserted; `PromptPlacement` states where they sit, and `EchoedPromptAnswer` uses the closing `Response:` |

## Left out

- Reading files, `json.load` and `json.dumps` are function parameters (`load`,
  `dumps`). A JSON number is kept as the text Python's `str()` prints for it.
  Duplicate object keys are not modelled: an object is its list of fields in
  insertion order.
- The embedding model, `encode` and `cosine_similarity` are floating-point
  library calls. The scores are a given sequence of ordered values, and `encode`
  is a parameter. An exception raised by `encode`, or by the similarity call
  when no index has been built, is not modelled, and neither are NaN scores.
- The query encoding in `find_relevant_context` (docs/docs_processor.py:75-76)
  is not modelled. `FindRelevantContext` starts from the scores, and
  `|scores| == |docs|` stands for the embeddings being parallel to the chunks.
- `encode` is not assumed to return one embedding per chunk. `ProcessDocs`
  states that `embeddings` becomes `encode(docs)`.
- Text.Lower: `lower()` is modelled on ASCII letters only. Other characters
  are kept as they are.
- Model and tokenizer loading in `LLMHandler.__init__` (llm/model_handler.py:8-39)
  is not modelled. The sampling `pipeline` call is a function from prompt to
  output. It is deterministic here, and any exception it raises is the one
  `PipelineFailure` outcome.
- The debug output (docs/docs_processor.py:25, 60-64; llm/model_handler.py:38,
  101-102) is not modelled, because it does not affect any result.
- `app.py` is not part of this model. It is the user interface that calls the
  two components.
