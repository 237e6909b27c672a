/**
 * Parsed JSON and the flattening of a document into provenance-tagged text
 * chunks (the recursive `flatten_json` of the documentation processor).
 *
 * `Flattened` is the specification of what one call appends to the chunk list;
 * the class method that appends in place is `DocsProcessing.DocsProcessor.FlattenJson`.
 */
module JsonValue {
  import opened Text

  /** A JSON scalar as `json.load` returns it. A number keeps the text Python's `str()` prints for it. */
  datatype Scalar = Str(s: string) | Number(repr: string) | Bool(b: bool) | Null

  /** A parsed JSON value; an object keeps its keys in insertion order. */
  datatype Json =
    | Object(fields: seq<(string, Json)>)
    | Array(items: seq<Json>)
    | Leaf(value: Scalar)

  /** Python's `str(value)` for a scalar. */
  function ScalarText(v: Scalar): string {
    match v
    case Str(s) => s
    case Number(repr) => repr
    case Bool(b) => if b then "True" else "False"
    case Null => "None"
  }

  /** `isinstance(value, (dict, list))` */
  predicate IsContainer(j: Json) {
    j.Object? || j.Array?
  }

  /** The keys that make an object worth keeping as one whole chunk. */
  const MarkerKeys: seq<string> := ["endpoint", "description", "parameters", "example"]

  /** `any(key in obj for key in MarkerKeys)` */
  predicate HasMarker(fields: seq<(string, Json)>) {
    exists i :: 0 <= i < |fields| && fields[i].0 in MarkerKeys
  }

  /** The path of a field: `f"{prefix}.{key}" if prefix else key`. */
  function KeyPath(prefix: string, key: string): string {
    if prefix != "" then prefix + "." + key else key
  }

  /** The path of an array element: `f"{prefix}[{i}]"`, also under an empty prefix. */
  function IndexPath(prefix: string, i: nat): string {
    prefix + "[" + NatToString(i) + "]"
  }

  /** The chunk text `f"{source} - {path}: {text}"`. */
  function Chunk(source: string, path: string, text: string): string {
    source + " - " + path + ": " + text
  }

  /** `s` starts with `p`. */
  predicate IsPrefix(p: string, s: string) {
    |p| <= |s| && s[..|p|] == p
  }

  /**
   * The chunks one call `flatten_json(j, prefix, source)` appends, in order:
   * an object with a marker key first contributes itself (rendered by `dumps`,
   * the library's `json.dumps(obj, indent=2)`), then every field in key order;
   * an array contributes its elements in index order; a scalar contributes nothing.
   */
  function Flattened(j: Json, prefix: string, source: string, dumps: Json -> string): (r: seq<string>)
    ensures j.Object? && HasMarker(j.fields) ==> |r| >= 1 && r[0] == Chunk(source, prefix, dumps(j))
    ensures j.Leaf? ==> r == []
    decreases j, 1
  {
    match j
    case Object(fields) =>
      (if HasMarker(fields) then [Chunk(source, prefix, dumps(j))] else [])
      + FieldChunks(j, |fields|, prefix, source, dumps)
    case Array(items) => ItemChunks(j, |items|, prefix, source, dumps)
    case Leaf(_) => []
  }

  /** What the value at `path` contributes from inside a container: a leaf chunk for a scalar. */
  function ChildChunks(v: Json, path: string, source: string, dumps: Json -> string): seq<string>
    decreases v, 2
  {
    if IsContainer(v) then Flattened(v, path, source, dumps)
    else [Chunk(source, path, ScalarText(v.value))]
  }

  /** The chunks of the first `n` fields of object `obj`, in key order. */
  function FieldChunks(obj: Json, n: nat, prefix: string, source: string, dumps: Json -> string): seq<string>
    requires obj.Object? && n <= |obj.fields|
    decreases obj, 0, n
  {
    if n == 0 then []
    else
      var (key, value) := obj.fields[n - 1];
      FieldChunks(obj, n - 1, prefix, source, dumps) + ChildChunks(value, KeyPath(prefix, key), source, dumps)
  }

  /** The chunks of the first `n` elements of array `arr`, in index order. */
  function ItemChunks(arr: Json, n: nat, prefix: string, source: string, dumps: Json -> string): seq<string>
    requires arr.Array? && n <= |arr.items|
    decreases arr, 0, n
  {
    if n == 0 then []
    else ItemChunks(arr, n - 1, prefix, source, dumps) + ChildChunks(arr.items[n - 1], IndexPath(prefix, n - 1), source, dumps)
  }

  // ---------------------------------------------------------------------
  // Counting the nodes of a document, independently of any chunk text
  // ---------------------------------------------------------------------

  /** Number of children of a container. */
  function Arity(j: Json): nat {
    match j
    case Object(fields) => |fields|
    case Array(items) => |items|
    case Leaf(_) => 0
  }

  /** Number of objects (at any depth, the root included) that have a marker key. */
  ghost function MarkerObjects(j: Json): nat
    decreases j, 1
  {
    (if j.Object? && HasMarker(j.fields) then 1 else 0) + MarkerObjectsBelow(j, Arity(j))
  }

  ghost function MarkerObjectsBelow(j: Json, n: nat): nat
    requires n <= Arity(j)
    decreases j, 0, n
  {
    if n == 0 then 0
    else
      var c := if j.Object? then j.fields[n - 1].1 else j.items[n - 1];
      MarkerObjectsBelow(j, n - 1) + MarkerObjects(c)
  }

  /** Number of scalars that sit directly inside an object or an array (at any depth). */
  ghost function ScalarPositions(j: Json): nat
    decreases j, 1
  {
    ScalarPositionsBelow(j, Arity(j))
  }

  ghost function ScalarPositionsBelow(j: Json, n: nat): nat
    requires n <= Arity(j)
    decreases j, 0, n
  {
    if n == 0 then 0
    else
      var c := if j.Object? then j.fields[n - 1].1 else j.items[n - 1];
      ScalarPositionsBelow(j, n - 1) + (if IsContainer(c) then ScalarPositions(c) else 1)
  }

  // ---------------------------------------------------------------------
  // Properties of flattening
  // ---------------------------------------------------------------------

  /** One call appends one chunk per marker object plus one per scalar inside a container. */
  lemma {:induction false} FlattenedCount(j: Json, prefix: string, source: string, dumps: Json -> string)
    ensures |Flattened(j, prefix, source, dumps)| == MarkerObjects(j) + ScalarPositions(j)
    decreases j, 1
  {
    match j
    case Object(fields) => FieldChunksCount(j, |fields|, prefix, source, dumps);
    case Array(items) => ItemChunksCount(j, |items|, prefix, source, dumps);
    case Leaf(_) =>
  }

  lemma {:induction false} ChildChunksCount(v: Json, path: string, source: string, dumps: Json -> string)
    ensures |ChildChunks(v, path, source, dumps)| == MarkerObjects(v) + (if IsContainer(v) then ScalarPositions(v) else 1)
    decreases v, 2
  {
    if IsContainer(v) {
      FlattenedCount(v, path, source, dumps);
    } else {
      assert MarkerObjects(v) == 0;
    }
  }

  lemma {:induction false} FieldChunksCount(obj: Json, n: nat, prefix: string, source: string, dumps: Json -> string)
    requires obj.Object? && n <= |obj.fields|
    ensures |FieldChunks(obj, n, prefix, source, dumps)| == MarkerObjectsBelow(obj, n) + ScalarPositionsBelow(obj, n)
    decreases obj, 0, n
  {
    if n > 0 {
      var (key, value) := obj.fields[n - 1];
      FieldChunksCount(obj, n - 1, prefix, source, dumps);
      ChildChunksCount(value, KeyPath(prefix, key), source, dumps);
    }
  }

  lemma {:induction false} ItemChunksCount(arr: Json, n: nat, prefix: string, source: string, dumps: Json -> string)
    requires arr.Array? && n <= |arr.items|
    ensures |ItemChunks(arr, n, prefix, source, dumps)| == MarkerObjectsBelow(arr, n) + ScalarPositionsBelow(arr, n)
    decreases arr, 0, n
  {
    if n > 0 {
      ItemChunksCount(arr, n - 1, prefix, source, dumps);
      ChildChunksCount(arr.items[n - 1], IndexPath(prefix, n - 1), source, dumps);
    }
  }

  /** A top-level scalar, `{}` and `[]` yield no chunk at all. */
  lemma EmptyDocuments(v: Scalar, source: string, dumps: Json -> string)
    ensures Flattened(Leaf(v), "", source, dumps) == []
    ensures Flattened(Object([]), "", source, dumps) == []
    ensures Flattened(Array([]), "", source, dumps) == []
  {
    assert !HasMarker([]);
  }

  /** Every chunk of a call carries its source label and sits at or under its path prefix. */
  lemma {:induction false} FlattenedProvenance(j: Json, prefix: string, source: string, dumps: Json -> string)
    ensures forall c :: c in Flattened(j, prefix, source, dumps) ==> IsPrefix(source + " - " + prefix, c)
    decreases j, 1
  {
    var head := source + " - " + prefix;
    match j
    case Object(fields) =>
      FieldChunksProvenance(j, |fields|, prefix, source, dumps);
      if HasMarker(fields) {
        ChunkProvenance(source, prefix, "", dumps(j));
      }
    case Array(items) =>
      ItemChunksProvenance(j, |items|, prefix, source, dumps);
    case Leaf(_) =>
  }

  /** A chunk at path `prefix + ext` starts with `source + " - " + prefix`. */
  lemma ChunkProvenance(source: string, prefix: string, ext: string, text: string)
    ensures IsPrefix(source + " - " + prefix, Chunk(source, prefix + ext, text))
  {
    var head := source + " - " + prefix;
    assert Chunk(source, prefix + ext, text) == head + (ext + ": " + text);
  }

  lemma {:induction false} ChildChunksProvenance(v: Json, prefix: string, ext: string, source: string, dumps: Json -> string)
    ensures forall c :: c in ChildChunks(v, prefix + ext, source, dumps) ==> IsPrefix(source + " - " + prefix, c)
    decreases v, 2
  {
    var head := source + " - " + prefix;
    if IsContainer(v) {
      FlattenedProvenance(v, prefix + ext, source, dumps);
      forall c | c in ChildChunks(v, prefix + ext, source, dumps)
        ensures IsPrefix(head, c)
      {
        assert c in Flattened(v, prefix + ext, source, dumps);
        assert head + ext == source + " - " + (prefix + ext);
        assert IsPrefix(head + ext, c);
        assert c[..|head + ext|][..|head|] == head;
      }
    } else {
      ChunkProvenance(source, prefix, ext, ScalarText(v.value));
    }
  }

  lemma {:induction false} FieldChunksProvenance(obj: Json, n: nat, prefix: string, source: string, dumps: Json -> string)
    requires obj.Object? && n <= |obj.fields|
    ensures forall c :: c in FieldChunks(obj, n, prefix, source, dumps) ==> IsPrefix(source + " - " + prefix, c)
    decreases obj, 0, n
  {
    if n > 0 {
      var (key, value) := obj.fields[n - 1];
      FieldChunksProvenance(obj, n - 1, prefix, source, dumps);
      var ext := if prefix != "" then "." + key else key;
      if prefix == "" {
        assert KeyPath(prefix, key) == prefix + ext;
      } else {
        assert KeyPath(prefix, key) == prefix + ext;
      }
      ChildChunksProvenance(value, prefix, ext, source, dumps);
    }
  }

  lemma {:induction false} ItemChunksProvenance(arr: Json, n: nat, prefix: string, source: string, dumps: Json -> string)
    requires arr.Array? && n <= |arr.items|
    ensures forall c :: c in ItemChunks(arr, n, prefix, source, dumps) ==> IsPrefix(source + " - " + prefix, c)
    decreases arr, 0, n
  {
    if n > 0 {
      ItemChunksProvenance(arr, n - 1, prefix, source, dumps);
      var ext := "[" + NatToString(n - 1) + "]";
      assert IndexPath(prefix, n - 1) == prefix + ext;
      ChildChunksProvenance(arr.items[n - 1], prefix, ext, source, dumps);
    }
  }

  /**
   * A scalar field `key` of an object yields a leaf chunk with its `str()` text,
   * at the bare key under an empty prefix and at `prefix.key` otherwise.
   */
  lemma ScalarFieldChunk(j: Json, i: nat, prefix: string, source: string, dumps: Json -> string)
    requires j.Object? && i < |j.fields| && j.fields[i].1.Leaf?
    ensures var (key, text) := (j.fields[i].0, ScalarText(j.fields[i].1.value));
      && (prefix == "" ==> Chunk(source, key, text) in Flattened(j, prefix, source, dumps))
      && (prefix != "" ==> Chunk(source, prefix + "." + key, text) in Flattened(j, prefix, source, dumps))
  {
    FieldChunksInclude(j, |j.fields|, i, prefix, source, dumps);
  }

  /** A scalar at index `i` of an array yields the leaf chunk at `prefix[i]`, also under an empty prefix. */
  lemma ScalarItemChunk(j: Json, i: nat, prefix: string, source: string, dumps: Json -> string)
    requires j.Array? && i < |j.items| && j.items[i].Leaf?
    ensures Chunk(source, prefix + "[" + NatToString(i) + "]", ScalarText(j.items[i].value)) in Flattened(j, prefix, source, dumps)
  {
    ItemChunksInclude(j, |j.items|, i, prefix, source, dumps);
  }

  lemma {:induction false} FieldChunksInclude(obj: Json, n: nat, i: nat, prefix: string, source: string, dumps: Json -> string)
    requires obj.Object? && i < n <= |obj.fields|
    ensures forall c :: c in ChildChunks(obj.fields[i].1, KeyPath(prefix, obj.fields[i].0), source, dumps) ==>
                          c in FieldChunks(obj, n, prefix, source, dumps)
    decreases n
  {
    if i < n - 1 {
      FieldChunksInclude(obj, n - 1, i, prefix, source, dumps);
    }
  }

  lemma {:induction false} ItemChunksInclude(arr: Json, n: nat, i: nat, prefix: string, source: string, dumps: Json -> string)
    requires arr.Array? && i < n <= |arr.items|
    ensures forall c :: c in ChildChunks(arr.items[i], IndexPath(prefix, i), source, dumps) ==>
                          c in ItemChunks(arr, n, prefix, source, dumps)
    decreases n
  {
    var last := ChildChunks(arr.items[n - 1], IndexPath(prefix, n - 1), source, dumps);
    assert ItemChunks(arr, n, prefix, source, dumps) == ItemChunks(arr, n - 1, prefix, source, dumps) + last;
    if i < n - 1 {
      ItemChunksInclude(arr, n - 1, i, prefix, source, dumps);
    }
  }
}
