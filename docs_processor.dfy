/**
 * The documentation processor: reading the two API documents with an
 * encoding fallback, flattening them into the chunk list `docs` in place,
 * and building the embedding index.
 *
 * File access (`open` + `json.load`), `json.dumps` and the embedding model's
 * `encode` are foreign calls; each is a function parameter here.
 */
module DocsProcessing {
  import opened Wrappers
  import opened Text
  import opened JsonValue

  // ---------------------------------------------------------------------
  // Reading one document: safe_read_json
  // ---------------------------------------------------------------------

  datatype Encoding = Utf8 | Utf8Sig | Latin1 | Cp1252

  /** The encodings tried, in order. */
  const Encodings: seq<Encoding> := [Utf8, Utf8Sig, Latin1, Cp1252]

  /** What `open(path, encoding=e)` followed by `json.load` does on one attempt. */
  datatype LoadOutcome =
    | Parsed(value: Json)
    | UnicodeDecodeError
    | JsonDecodeError(message: string)
    | OtherError(message: string)

  /** The two failures that move on to the next encoding. */
  predicate Caught(o: LoadOutcome) {
    o.UnicodeDecodeError? || o.JsonDecodeError?
  }

  /** The exception `safe_read_json` lets out. */
  datatype ReadError =
    | AllEncodingsFailed(path: string)   // the ValueError raised after the last encoding
    | Uncaught(message: string)          // any other exception, propagated as it is

  datatype ReadResult = Read(value: Json) | ReadFailed(error: ReadError)

  /** `str(e)` of the exception. */
  function ErrorText(e: ReadError): string {
    match e
    case AllEncodingsFailed(path) => "Could not read file " + path + " with any of the attempted encodings"
    case Uncaught(message) => message
  }

  /** Every attempt before the `n`-th ended in a caught failure. */
  predicate AllCaughtBefore(path: string, load: (string, Encoding) -> LoadOutcome, n: nat)
    requires n <= |Encodings|
  {
    forall k :: 0 <= k < n ==> Caught(load(path, Encodings[k]))
  }

  /** The result of trying the encodings from the `i`-th on. */
  function ReadFrom(path: string, load: (string, Encoding) -> LoadOutcome, i: nat): ReadResult
    requires i <= |Encodings|
    decreases |Encodings| - i
  {
    if i == |Encodings| then ReadFailed(AllEncodingsFailed(path))
    else
      match load(path, Encodings[i])
      case Parsed(value) => Read(value)
      case UnicodeDecodeError => ReadFrom(path, load, i + 1)
      case JsonDecodeError(_) => ReadFrom(path, load, i + 1)
      case OtherError(message) => ReadFailed(Uncaught(message))
  }

  /** The result `safe_read_json(path)` returns or raises. */
  function ReadJson(path: string, load: (string, Encoding) -> LoadOutcome): ReadResult {
    ReadFrom(path, load, 0)
  }

  /**
   * The result is decided by the first attempt that does not end in a caught
   * failure: its parsed value, or its exception; when all four end in a
   * caught failure, the error naming the file.
   */
  lemma {:induction false} ReadJsonFirstDecisive(path: string, load: (string, Encoding) -> LoadOutcome) returns (i: nat)
    ensures i <= |Encodings| && AllCaughtBefore(path, load, i)
    ensures i == |Encodings| ==> ReadJson(path, load) == ReadFailed(AllEncodingsFailed(path))
    ensures i < |Encodings| ==> !Caught(load(path, Encodings[i]))
    ensures i < |Encodings| && load(path, Encodings[i]).Parsed? ==>
              ReadJson(path, load) == Read(load(path, Encodings[i]).value)
    ensures i < |Encodings| && load(path, Encodings[i]).OtherError? ==>
              ReadJson(path, load) == ReadFailed(Uncaught(load(path, Encodings[i]).message))
  {
    i := 0;
    while i < |Encodings| && Caught(load(path, Encodings[i]))
      invariant i <= |Encodings| && AllCaughtBefore(path, load, i)
      invariant ReadFrom(path, load, i) == ReadJson(path, load)
      decreases |Encodings| - i
    {
      i := i + 1;
    }
  }

  /** The "could not read" error is raised exactly when every encoding failed to decode or parse. */
  lemma ReadJsonFailsIffAllCaught(path: string, load: (string, Encoding) -> LoadOutcome)
    ensures ReadJson(path, load) == ReadFailed(AllEncodingsFailed(path)) <==> AllCaughtBefore(path, load, |Encodings|)
  {
    var i := ReadJsonFirstDecisive(path, load);
  }

  // ---------------------------------------------------------------------
  // The processor
  // ---------------------------------------------------------------------

  /** An embedding vector (floating point, produced by the foreign model). */
  type Embedding = seq<real>

  const DatasetPath: string := "data/dataset_api.json"
  const EnrichmentPath: string := "data/discovery_enrichment_api.json"
  const ProcessingErrorPrefix: string := "Error processing documentation: "
  const NoContentMessage: string := "No documentation content was processed"

  /** How `process_docs` ends: normally, or with the wrapping exception's message. */
  datatype Status = Processed | ProcessingError(message: string)

  /** The chunk list of a successful load: the dataset's chunks, then the enrichment's. */
  function Corpus(dataset: Json, enrichment: Json, dumps: Json -> string): seq<string> {
    Flattened(dataset, "", "dataset", dumps) + Flattened(enrichment, "", "enrichment", dumps)
  }

  /** Every dataset chunk precedes every enrichment chunk, and each is labelled with its source. */
  lemma CorpusOrder(dataset: Json, enrichment: Json, dumps: Json -> string)
    ensures var corpus := Corpus(dataset, enrichment, dumps);
      var split := |Flattened(dataset, "", "dataset", dumps)|;
      && (forall k :: 0 <= k < split ==> IsPrefix("dataset - ", corpus[k]))
      && (forall k :: split <= k < |corpus| ==> IsPrefix("enrichment - ", corpus[k]))
  {
    var first := Flattened(dataset, "", "dataset", dumps);
    var second := Flattened(enrichment, "", "enrichment", dumps);
    FlattenedProvenance(dataset, "", "dataset", dumps);
    FlattenedProvenance(enrichment, "", "enrichment", dumps);
    assert "dataset" + " - " + "" == "dataset - ";
    assert "enrichment" + " - " + "" == "enrichment - ";
    assert forall k :: 0 <= k < |first| ==> (first + second)[k] == first[k];
    assert forall k :: |first| <= k < |first| + |second| ==> (first + second)[k] == second[k - |first|];
  }

  /**
   * Appending in two steps is appending once; stated over plain sequences so
   * that the loops below do not have to unfold the chunk functions to regroup.
   */
  lemma AppendAssoc<T>(a: seq<T>, b: seq<T>, c: seq<T>)
    ensures a + b + c == a + (b + c)
  {
  }

  class DocsProcessor {
    /** The chunk list. */
    var docs: seq<string>
    /** The embedding of every chunk, or `None` before a successful load. */
    var embeddings: Option<seq<Embedding>>

    constructor ()
      ensures docs == [] && embeddings == None
    {
      docs := [];
      embeddings := None;
    }

    /** `safe_read_json`: try each encoding in turn and return the first document that parses. */
    method SafeReadJson(path: string, load: (string, Encoding) -> LoadOutcome) returns (r: ReadResult)
      ensures r == ReadJson(path, load)
    {
      var i := 0;
      while i < |Encodings|
        invariant i <= |Encodings|
        invariant ReadFrom(path, load, i) == ReadJson(path, load)
      {
        var outcome := load(path, Encodings[i]);
        if outcome.Parsed? {
          return Read(outcome.value);
        } else if outcome.OtherError? {
          return ReadFailed(Uncaught(outcome.message));
        }
        i := i + 1;
      }
      return ReadFailed(AllEncodingsFailed(path));
    }

    /** `flatten_json(obj, prefix, source)`: append the chunks of `obj` to `docs`. */
    method FlattenJson(obj: Json, prefix: string, source: string, dumps: Json -> string)
      modifies this
      ensures docs == old(docs) + Flattened(obj, prefix, source, dumps)
      ensures embeddings == old(embeddings)
      decreases obj, 1
    {
      match obj {
        case Object(fields) =>
          var own := if HasMarker(fields) then [Chunk(source, prefix, dumps(obj))] else [];
          docs := docs + own;
          FlattenFields(obj, prefix, source, dumps);
          AppendAssoc(old(docs), own, FieldChunks(obj, |fields|, prefix, source, dumps));
        case Array(_) =>
          FlattenItems(obj, prefix, source, dumps);
        case Leaf(_) =>
      }
    }

    /** The loop over `obj.items()`. */
    method FlattenFields(obj: Json, prefix: string, source: string, dumps: Json -> string)
      requires obj.Object?
      modifies this
      ensures docs == old(docs) + FieldChunks(obj, |obj.fields|, prefix, source, dumps)
      ensures embeddings == old(embeddings)
      decreases obj, 0
    {
      var i := 0;
      while i < |obj.fields|
        invariant i <= |obj.fields|
        invariant docs == old(docs) + FieldChunks(obj, i, prefix, source, dumps)
        invariant embeddings == old(embeddings)
      {
        var (key, value) := obj.fields[i];
        FlattenChild(value, KeyPath(prefix, key), source, dumps);
        var done, next := FieldChunks(obj, i, prefix, source, dumps), ChildChunks(value, KeyPath(prefix, key), source, dumps);
        AppendAssoc(old(docs), done, next);
        i := i + 1;
      }
    }

    /** The loop over `enumerate(obj)`. */
    method FlattenItems(arr: Json, prefix: string, source: string, dumps: Json -> string)
      requires arr.Array?
      modifies this
      ensures docs == old(docs) + ItemChunks(arr, |arr.items|, prefix, source, dumps)
      ensures embeddings == old(embeddings)
      decreases arr, 0
    {
      var i := 0;
      while i < |arr.items|
        invariant i <= |arr.items|
        invariant docs == old(docs) + ItemChunks(arr, i, prefix, source, dumps)
        invariant embeddings == old(embeddings)
      {
        FlattenChild(arr.items[i], IndexPath(prefix, i), source, dumps);
        var done, next := ItemChunks(arr, i, prefix, source, dumps), ChildChunks(arr.items[i], IndexPath(prefix, i), source, dumps);
        AppendAssoc(old(docs), done, next);
        i := i + 1;
      }
    }

    /** The loop body: recurse into a nested container, append a leaf chunk for a scalar. */
    method FlattenChild(value: Json, path: string, source: string, dumps: Json -> string)
      modifies this
      ensures docs == old(docs) + ChildChunks(value, path, source, dumps)
      ensures embeddings == old(embeddings)
      decreases value, 2
    {
      if IsContainer(value) {
        FlattenJson(value, path, source, dumps);
      } else {
        docs := docs + [Chunk(source, path, ScalarText(value.value))];
      }
    }

    /**
     * `process_docs`: read both documents, then reset and rebuild `docs`, then
     * embed it; every failure is reported wrapped in the processing error.
     */
    method ProcessDocs(load: (string, Encoding) -> LoadOutcome, dumps: Json -> string,
                       encode: seq<string> -> seq<Embedding>) returns (status: Status)
      modifies this
      ensures var d := ReadJson(DatasetPath, load);
        d.ReadFailed? ==>
          && status == ProcessingError(ProcessingErrorPrefix + ErrorText(d.error))
          && docs == old(docs) && embeddings == old(embeddings)
      ensures var d, e := ReadJson(DatasetPath, load), ReadJson(EnrichmentPath, load);
        d.Read? && e.ReadFailed? ==>
          && status == ProcessingError(ProcessingErrorPrefix + ErrorText(e.error))
          && docs == old(docs) && embeddings == old(embeddings)
      ensures var d, e := ReadJson(DatasetPath, load), ReadJson(EnrichmentPath, load);
        d.Read? && e.Read? ==>
          && docs == Corpus(d.value, e.value, dumps)
          && (docs == [] ==> status == ProcessingError(ProcessingErrorPrefix + NoContentMessage)
                             && embeddings == old(embeddings))
          && (docs != [] ==> status == Processed && embeddings == Some(encode(docs)))
    {
      var dataset := SafeReadJson(DatasetPath, load);
      if dataset.ReadFailed? {
        return ProcessingError(ProcessingErrorPrefix + ErrorText(dataset.error));
      }
      var enrichment := SafeReadJson(EnrichmentPath, load);
      if enrichment.ReadFailed? {
        return ProcessingError(ProcessingErrorPrefix + ErrorText(enrichment.error));
      }
      docs := [];
      FlattenJson(dataset.value, "", "dataset", dumps);
      FlattenJson(enrichment.value, "", "enrichment", dumps);
      if docs != [] {
        embeddings := Some(encode(docs));
        status := Processed;
      } else {
        status := ProcessingError(ProcessingErrorPrefix + NoContentMessage);
      }
    }
  }
}
