/**
 * Query-time retrieval (`find_relevant_context`): choose the `top_k` chunks
 * with the highest similarity score, then keep the endpoint tier followed by
 * the parameter tier of that selection and join them with newlines.
 *
 * Similarity scores are given as a sequence of ordered values; the order
 * `np.argsort` produces is a parameter constrained by `IsArgsort`, because
 * its sort is not stable and ties may come out in any order.
 */
module Retrieval {
  import opened Text

  // ---------------------------------------------------------------------
  // np.argsort
  // ---------------------------------------------------------------------

  /** Every score reached through `order` is at most every later one. */
  predicate SortedBy(scores: seq<int>, order: seq<nat>)
    requires forall a :: 0 <= a < |order| ==> order[a] < |scores|
  {
    forall a, b :: 0 <= a <= b < |order| ==> scores[order[a]] <= scores[order[b]]
  }

  /** `order` is a permutation of the indices of `scores` listing them by ascending score. */
  predicate IsArgsort(scores: seq<int>, order: seq<nat>) {
    && |order| == |scores|
    && (forall a :: 0 <= a < |order| ==> order[a] < |scores|)
    && (forall a, b :: 0 <= a < b < |order| ==> order[a] != order[b])
    && (forall i :: 0 <= i < |scores| ==> i in order)
    && SortedBy(scores, order)
  }

  /** Where a new index with score `x` goes in `sorted`: after every entry scoring at most `x`. */
  function InsertPos(scores: seq<int>, sorted: seq<nat>, x: int): (p: nat)
    requires forall a :: 0 <= a < |sorted| ==> sorted[a] < |scores|
    ensures p <= |sorted|
    ensures SortedBy(scores, sorted) ==> forall a :: 0 <= a < p ==> scores[sorted[a]] <= x
    ensures forall a :: p <= a < |sorted| ==> x < scores[sorted[a]]
    decreases |sorted|
  {
    if |sorted| == 0 || scores[sorted[|sorted| - 1]] <= x then |sorted|
    else InsertPos(scores, sorted[..|sorted| - 1], x)
  }

  /** `prev` with index `m` inserted after every entry scoring at most `scores[m]`. */
  function Insert(scores: seq<int>, prev: seq<nat>, m: nat): (order: seq<nat>)
    requires m < |scores| && forall a :: 0 <= a < |prev| ==> prev[a] < m
    ensures |order| == |prev| + 1
    ensures forall a :: 0 <= a < |order| ==> order[a] <= m
  {
    var p := InsertPos(scores, prev, scores[m]);
    prev[..p] + [m] + prev[p..]
  }

  /** Ties listed in index order. */
  predicate StableOnTies(scores: seq<int>, order: seq<nat>)
    requires forall a :: 0 <= a < |order| ==> order[a] < |scores|
  {
    forall a, b :: 0 <= a < b < |order| && scores[order[a]] == scores[order[b]] ==> order[a] < order[b]
  }

  /** `order` lists each of `0..n-1` once, by ascending score and ties in index order. */
  predicate StablyOrders(scores: seq<int>, order: seq<nat>, n: nat) {
    && n <= |scores| && |order| == n
    && (forall a :: 0 <= a < n ==> order[a] < n)
    && (forall a, b :: 0 <= a < b < n ==> order[a] != order[b])
    && (forall i :: 0 <= i < n ==> i in order)
    && SortedBy(scores, order)
    && StableOnTies(scores, order)
  }

  /**
   * The indices `0..n-1` by ascending score, ties in index order (an insertion
   * sort): one order `np.argsort` may return.
   */
  function StableArgsort(scores: seq<int>, n: nat): (order: seq<nat>)
    requires n <= |scores|
    ensures |order| == n && forall a :: 0 <= a < n ==> order[a] < n
    decreases n
  {
    if n == 0 then [] else Insert(scores, StableArgsort(scores, n - 1), n - 1)
  }

  /** The insertion sort lists each of `0..n-1` once, by ascending score and ties in index order. */
  lemma {:induction false} StableArgsortCorrect(scores: seq<int>, n: nat)
    requires n <= |scores|
    ensures StablyOrders(scores, StableArgsort(scores, n), n)
    decreases n
  {
    if n > 0 {
      StableArgsortCorrect(scores, n - 1);
      StableArgsortStep(scores, n);
    }
  }

  /** One more insertion step keeps the order a stable ascending listing. */
  lemma StableArgsortStep(scores: seq<int>, n: nat)
    requires 0 < n <= |scores| && StablyOrders(scores, StableArgsort(scores, n - 1), n - 1)
    ensures StablyOrders(scores, StableArgsort(scores, n), n)
  {
    InsertKeepsOrder(scores, StableArgsort(scores, n - 1), n - 1);
  }

  /** Inserting the next index keeps the order a stable ascending listing. */
  lemma InsertKeepsOrder(scores: seq<int>, prev: seq<nat>, m: nat)
    requires m < |scores| && StablyOrders(scores, prev, m)
    ensures StablyOrders(scores, Insert(scores, prev, m), m + 1)
  {
    var p := InsertPos(scores, prev, scores[m]);
    var order := Insert(scores, prev, m);
    InsertLayout(prev, m, p);
    InsertPermutes(prev, m, p, order);
    InsertSorts(scores, prev, m, p, order);
    InsertStaysStable(scores, prev, m, p, order);
  }

  /** Where each entry of `prev` lands once `m` is inserted at position `p`. */
  lemma InsertLayout(prev: seq<nat>, m: nat, p: nat)
    requires |prev| == m && p <= m
    ensures var order := prev[..p] + [m] + prev[p..];
      && |order| == m + 1
      && (forall a :: 0 <= a < p ==> order[a] == prev[a])
      && order[p] == m
      && (forall a :: p < a <= m ==> order[a] == prev[a - 1])
  {
  }

  /** Inserting the new index `m` into a permutation of `0..m-1` gives one of `0..m`. */
  lemma InsertPermutes(prev: seq<nat>, m: nat, p: nat, order: seq<nat>)
    requires |prev| == m && p <= m && |order| == m + 1
    requires forall a :: 0 <= a < m ==> prev[a] < m
    requires forall a, b :: 0 <= a < b < m ==> prev[a] != prev[b]
    requires forall i :: 0 <= i < m ==> i in prev
    requires forall a :: 0 <= a < p ==> order[a] == prev[a]
    requires order[p] == m
    requires forall a :: p < a <= m ==> order[a] == prev[a - 1]
    ensures forall a, b :: 0 <= a < b <= m ==> order[a] != order[b]
    ensures forall i :: 0 <= i <= m ==> i in order
  {
    forall a, b | 0 <= a < b <= m
      ensures order[a] != order[b]
    {
      var a' := if a < p then a else a - 1;
      if a == p {
        assert order[b] == prev[b - 1] < m;
      } else if b == p {
        assert order[a] == prev[a] < m;
      } else {
        var b' := if b < p then b else b - 1;
        assert order[a] == prev[a'] && order[b] == prev[b'] && a' < b';
      }
    }
    forall i | 0 <= i <= m
      ensures i in order
    {
      if i == m {
        assert order[p] == i;
      } else {
        assert i in prev;
        var a :| 0 <= a < m && prev[a] == i;
        assert order[if a < p then a else a + 1] == i;
      }
    }
  }

  /** Inserting `m` at its place keeps the order sorted. */
  lemma InsertSorts(scores: seq<int>, prev: seq<nat>, m: nat, p: nat, order: seq<nat>)
    requires m < |scores| && |prev| == m && p <= m && |order| == m + 1
    requires forall a :: 0 <= a < m ==> prev[a] < m
    requires forall a :: 0 <= a < p ==> scores[prev[a]] <= scores[m]
    requires forall a :: p <= a < m ==> scores[m] < scores[prev[a]]
    requires forall a :: 0 <= a < p ==> order[a] == prev[a]
    requires order[p] == m
    requires forall a :: p < a <= m ==> order[a] == prev[a - 1]
    requires SortedBy(scores, prev)
    ensures forall a :: 0 <= a <= m ==> order[a] < |scores|
    ensures SortedBy(scores, order)
  {
    assert forall a :: 0 <= a <= p ==> scores[order[a]] <= scores[m];
    assert forall b :: p < b <= m ==> scores[m] < scores[order[b]];
    forall a, b | 0 <= a <= b <= m
      ensures scores[order[a]] <= scores[order[b]]
    {
      if b < p {
        assert order[a] == prev[a] && order[b] == prev[b];
      } else if p < a {
        assert order[a] == prev[a - 1] && order[b] == prev[b - 1];
      }
    }
  }

  /** Inserting `m` at its place, after every entry with its score, keeps ties in index order. */
  lemma InsertStaysStable(scores: seq<int>, prev: seq<nat>, m: nat, p: nat, order: seq<nat>)
    requires m < |scores| && |prev| == m && p <= m && |order| == m + 1
    requires forall a :: 0 <= a < m ==> prev[a] < m
    requires forall a :: 0 <= a < p ==> scores[prev[a]] <= scores[m]
    requires forall a :: p <= a < m ==> scores[m] < scores[prev[a]]
    requires forall a :: 0 <= a < p ==> order[a] == prev[a]
    requires order[p] == m
    requires forall a :: p < a <= m ==> order[a] == prev[a - 1]
    requires StableOnTies(scores, prev)
    ensures forall a :: 0 <= a <= m ==> order[a] < |scores|
    ensures StableOnTies(scores, order)
  {
    assert forall b :: p < b <= m ==> scores[m] < scores[order[b]];
    forall a, b | 0 <= a < b <= m && scores[order[a]] == scores[order[b]]
      ensures order[a] < order[b]
    {
      if b < p {
        assert order[a] == prev[a] && order[b] == prev[b];
      } else if b == p {
        assert order[a] == prev[a] < m;
      } else {
        assert order[a] == prev[a - 1] && order[b] == prev[b - 1];
      }
    }
  }

  /** The stable order is one `np.argsort` may return: the requirement on `order` can be met. */
  lemma StableArgsortIsArgsort(scores: seq<int>)
    ensures IsArgsort(scores, StableArgsort(scores, |scores|))
  {
    StableArgsortCorrect(scores, |scores|);
  }

  // ---------------------------------------------------------------------
  // Top-K: np.argsort(similarities)[-top_k:][::-1]
  // ---------------------------------------------------------------------

  /** The start Python computes for the slice `[-k:]` of a length-`n` sequence. */
  function SliceStart(n: nat, k: int): (start: nat)
    ensures start <= n
  {
    if k > 0 then (if k >= n then 0 else n - k)
    else if k == 0 then 0
    else (if -k >= n then n else -k)
  }

  /** `s[::-1]` */
  function Reverse(s: seq<nat>): (r: seq<nat>)
    ensures |r| == |s|
    ensures forall a :: 0 <= a < |s| ==> r[a] == s[|s| - 1 - a]
  {
    seq(|s|, a requires 0 <= a < |s| => s[|s| - 1 - a])
  }

  /** `np.argsort(similarities)[-top_k:][::-1]`, given the order argsort returned. */
  function TopIndices(order: seq<nat>, topK: int): seq<nat> {
    Reverse(order[SliceStart(|order|, topK)..])
  }

  /** Entry `a` of the selection is entry `a` from the end of argsort's order. */
  lemma TopIndicesLayout(order: seq<nat>, topK: int)
    ensures var sel := TopIndices(order, topK);
      && |sel| == |order| - SliceStart(|order|, topK)
      && forall a :: 0 <= a < |sel| ==> sel[a] == order[|order| - 1 - a]
  {
  }

  /**
   * For `top_k >= 1` the selection holds `min(top_k, n)` distinct indices in range,
   * listed by non-increasing score, and no index left out scores above one taken.
   */
  lemma TopKSelection(scores: seq<int>, order: seq<nat>, topK: int)
    requires IsArgsort(scores, order) && topK >= 1
    ensures var sel := TopIndices(order, topK);
      && |sel| == (if topK < |scores| then topK else |scores|)
      && (forall a :: 0 <= a < |sel| ==> sel[a] < |scores|)
      && (forall a, b :: 0 <= a < b < |sel| ==> sel[a] != sel[b])
      && (forall a, b :: 0 <= a <= b < |sel| ==> scores[sel[a]] >= scores[sel[b]])
      && (forall i, j :: 0 <= i < |scores| && i !in sel && j in sel ==> scores[i] <= scores[j])
  {
    var n := |scores|;
    var sel := TopIndices(order, topK);
    TopIndicesLayout(order, topK);
    forall a, b | 0 <= a < b < |sel|
      ensures sel[a] != sel[b] && scores[sel[a]] >= scores[sel[b]]
    {
      assert sel[a] == order[n - 1 - a] && sel[b] == order[n - 1 - b];
    }
    TopKDominates(scores, order, topK);
  }

  /** An entry of the order left out of the selection sits before every entry taken. */
  lemma LeftOutComesFirst(order: seq<nat>, topK: int, a: nat, b: nat)
    requires a < |order| && order[a] !in TopIndices(order, topK)
    requires b < |TopIndices(order, topK)|
    ensures a < |order| - 1 - b
  {
    TakenFromStart(order, topK, a);
    TopIndicesLayout(order, topK);
  }

  /** Every entry of the order from the slice start on is selected. */
  lemma TakenFromStart(order: seq<nat>, topK: int, a: nat)
    requires a < |order|
    ensures SliceStart(|order|, topK) <= a ==> order[a] in TopIndices(order, topK)
  {
    if SliceStart(|order|, topK) <= a {
      TopIndicesLayout(order, topK);
      assert TopIndices(order, topK)[|order| - 1 - a] == order[a];
    }
  }

  /** No index left out of the selection scores above an index in it. */
  lemma TopKDominates(scores: seq<int>, order: seq<nat>, topK: int)
    requires IsArgsort(scores, order)
    ensures var sel := TopIndices(order, topK);
      forall i, j :: 0 <= i < |scores| && i !in sel && j in sel ==> scores[i] <= scores[j]
  {
    var n := |scores|;
    var sel := TopIndices(order, topK);
    forall i, j | 0 <= i < n && i !in sel && j in sel
      ensures scores[i] <= scores[j]
    {
      assert i in order;
      var a :| 0 <= a < n && order[a] == i;
      var b :| 0 <= b < |sel| && sel[b] == j;
      LeftOutScoresLower(scores, order, topK, a, b);
    }
  }

  /** The score of an entry of the order left out of the selection is at most that of an entry taken. */
  lemma LeftOutScoresLower(scores: seq<int>, order: seq<nat>, topK: int, a: nat, b: nat)
    requires forall x :: 0 <= x < |order| ==> order[x] < |scores|
    requires SortedBy(scores, order)
    requires a < |order| && order[a] !in TopIndices(order, topK)
    requires b < |TopIndices(order, topK)|
    ensures scores[order[a]] <= scores[TopIndices(order, topK)[b]]
  {
    LeftOutComesFirst(order, topK, a, b);
    TopIndicesLayout(order, topK);
  }

  /** With `top_k = 0` the slice `[-0:]` keeps every index. */
  lemma TopKZeroKeepsAll(scores: seq<int>, order: seq<nat>)
    requires IsArgsort(scores, order)
    ensures |TopIndices(order, 0)| == |scores|
    ensures forall i :: 0 <= i < |scores| ==> i in TopIndices(order, 0)
  {
    var sel := TopIndices(order, 0);
    forall i | 0 <= i < |scores|
      ensures i in sel
    {
      assert i in order;
      var a :| 0 <= a < |order| && order[a] == i;
      assert sel[|order| - 1 - a] == i;
    }
  }

  // ---------------------------------------------------------------------
  // The two tiers and the context string
  // ---------------------------------------------------------------------

  /** `[self.docs[i] for i in top_indices]` */
  function Relevant(docs: seq<string>, sel: seq<nat>): (chunks: seq<string>)
    requires forall a :: 0 <= a < |sel| ==> sel[a] < |docs|
  {
    seq(|sel|, a requires 0 <= a < |sel| => docs[sel[a]])
  }

  /** `'endpoint' in chunk.lower()` */
  predicate MatchesEndpoint(chunk: string) {
    Contains(Lower(chunk), "endpoint")
  }

  const ParameterTokens: seq<string> := ["parameter", "filter", "type", "value"]

  /** `any(param in chunk.lower() for param in ParameterTokens)` */
  predicate MatchesParameter(chunk: string) {
    exists t :: t in ParameterTokens && Contains(Lower(chunk), t)
  }

  /**
   * The endpoint tier ignores case: "Endpoint", "EndPoint", "ENDPOINT" or any
   * other spelling that lowers to "endpoint" puts a chunk in the tier.
   */
  lemma EndpointAnyCase(chunk: string, t: string, i: nat)
    requires OccursAt(chunk, t, i) && Lower(t) == "endpoint"
    ensures MatchesEndpoint(chunk)
  {
    LowerKeepsSubstrings(chunk, t, i);
  }

  /** For instance, a chunk mentioning "EndPoint" is in the endpoint tier. */
  lemma MixedCaseEndpoint(chunk: string, i: nat)
    requires OccursAt(chunk, "EndPoint", i)
    ensures MatchesEndpoint(chunk)
  {
    assert Lower("EndPoint") == "endpoint";
    EndpointAnyCase(chunk, "EndPoint", i);
  }

  /** A list comprehension with a condition: the elements of `s` satisfying `p`, in order. */
  function Filter<T>(s: seq<T>, p: T -> bool): (r: seq<T>)
    ensures |r| <= |s|
    ensures forall x :: x in r ==> x in s && p(x)
    decreases |s|
  {
    if |s| == 0 then []
    else (if p(s[0]) then [s[0]] else []) + Filter(s[1..], p)
  }

  /** `a` is `b` with some elements left out, the rest kept in order. */
  predicate IsSubsequence<T(==)>(a: seq<T>, b: seq<T>)
    decreases |b|
  {
    || |a| == 0
    || (&& |b| > 0
        && ((a[0] == b[0] && IsSubsequence(a[1..], b[1..])) || IsSubsequence(a, b[1..])))
  }

  /** `endpoint_chunks + parameter_chunks`, both filtered from the whole selection. */
  function Prioritized(chunks: seq<string>): seq<string> {
    Filter(chunks, MatchesEndpoint) + Filter(chunks, MatchesParameter)
  }

  /** `find_relevant_context` given the chunk list, the similarity scores and argsort's order; `top_k` defaults to 8. */
  function FindRelevantContext(docs: seq<string>, scores: seq<int>, order: seq<nat>, topK: int := 8): string
    requires |scores| == |docs| && IsArgsort(scores, order)
  {
    var sel := TopIndices(order, topK);
    Join(Prioritized(Relevant(docs, sel)), "\n")
  }

  // ---------------------------------------------------------------------
  // Properties
  // ---------------------------------------------------------------------

  /** A filter keeps every occurrence of a matching element and none of the others. */
  lemma {:induction false} FilterCount<T>(s: seq<T>, p: T -> bool, x: T)
    ensures multiset(Filter(s, p))[x] == if p(x) then multiset(s)[x] else 0
    decreases |s|
  {
    if |s| > 0 {
      FilterCount(s[1..], p, x);
      assert s == [s[0]] + s[1..];
    }
  }

  /** A filter keeps the order of what it keeps. */
  lemma {:induction false} FilterIsSubsequence<T>(s: seq<T>, p: T -> bool)
    ensures IsSubsequence(Filter(s, p), s)
    decreases |s|
  {
    if |s| > 0 {
      FilterIsSubsequence(s[1..], p);
      var r := Filter(s, p);
      if p(s[0]) {
        assert r[0] == s[0] && r[1..] == Filter(s[1..], p);
      } else {
        assert r == Filter(s[1..], p);
      }
    }
  }

  /**
   * For `top_k >= 1` the selected chunks are `min(top_k, n)` chunks at distinct
   * indices, listed by non-increasing score, and no chunk left out scores above
   * one taken.
   */
  lemma RelevantSelection(docs: seq<string>, scores: seq<int>, order: seq<nat>, topK: int)
    requires |scores| == |docs| && IsArgsort(scores, order) && topK >= 1
    ensures var sel := TopIndices(order, topK);
      var chunks := Relevant(docs, sel);
      && |chunks| == (if topK < |docs| then topK else |docs|)
      && (forall a :: 0 <= a < |chunks| ==> sel[a] < |docs| && chunks[a] == docs[sel[a]])
      && (forall a, b :: 0 <= a < b < |chunks| ==> sel[a] != sel[b] && scores[sel[a]] >= scores[sel[b]])
      && (forall i, a :: 0 <= i < |docs| && i !in sel && 0 <= a < |chunks| ==> scores[i] <= scores[sel[a]])
  {
    var sel := TopIndices(order, topK);
    TopKSelection(scores, order, topK);
    forall i, a | 0 <= i < |docs| && i !in sel && 0 <= a < |sel|
      ensures scores[i] <= scores[sel[a]]
    {
      assert sel[a] in sel;
    }
  }

  /** A chunk that matches either tier is not empty. */
  lemma MatchedChunkNonEmpty(chunk: string)
    requires MatchesEndpoint(chunk) || MatchesParameter(chunk)
    ensures chunk != ""
  {
    if MatchesEndpoint(chunk) {
      var i: nat :| OccursAt(Lower(chunk), "endpoint", i);
    } else {
      var t :| t in ParameterTokens && Contains(Lower(chunk), t);
      var i: nat :| OccursAt(Lower(chunk), t, i);
    }
  }

  /**
   * The output is the endpoint tier followed by the parameter tier, and at
   * most twice as long as the selection.
   */
  lemma PrioritizedTiers(chunks: seq<string>)
    ensures var out := Prioritized(chunks);
      var e := |Filter(chunks, MatchesEndpoint)|;
      && e <= |out| <= 2 * |chunks|
      && (forall k :: 0 <= k < e ==> MatchesEndpoint(out[k]))
      && (forall k :: e <= k < |out| ==> MatchesParameter(out[k]))
  {
    var ends := Filter(chunks, MatchesEndpoint);
    var params := Filter(chunks, MatchesParameter);
    var out := ends + params;
    forall k | 0 <= k < |ends|
      ensures MatchesEndpoint(out[k])
    {
      assert out[k] == ends[k];
      assert ends[k] in ends;
    }
    forall k | |ends| <= k < |out|
      ensures MatchesParameter(out[k])
    {
      assert out[k] == params[k - |ends|];
      assert params[k - |ends|] in params;
    }
  }

  /** Each tier keeps the selection order of the chunks it holds. */
  lemma PrioritizedOrder(chunks: seq<string>)
    ensures var out := Prioritized(chunks);
      var e := |Filter(chunks, MatchesEndpoint)|;
      && e <= |out|
      && IsSubsequence(out[..e], chunks)
      && IsSubsequence(out[e..], chunks)
  {
    var ends := Filter(chunks, MatchesEndpoint);
    var params := Filter(chunks, MatchesParameter);
    var out := ends + params;
    assert out[..|ends|] == ends && out[|ends|..] == params;
    FilterIsSubsequence(chunks, MatchesEndpoint);
    FilterIsSubsequence(chunks, MatchesParameter);
  }

  /**
   * A chunk matching neither tier is dropped and one matching both appears
   * once per tier: the output holds each chunk once for every tier it matches.
   */
  lemma PrioritizedCount(chunks: seq<string>, c: string)
    ensures multiset(Prioritized(chunks))[c] ==
            (if MatchesEndpoint(c) then multiset(chunks)[c] else 0)
            + (if MatchesParameter(c) then multiset(chunks)[c] else 0)
  {
    FilterCount(chunks, MatchesEndpoint, c);
    FilterCount(chunks, MatchesParameter, c);
  }

  /** Every chunk that survives is a chunk of the selection that matches a tier. */
  lemma SurvivorsMatch(chunks: seq<string>)
    ensures forall c :: c in Prioritized(chunks) ==> c in chunks && (MatchesEndpoint(c) || MatchesParameter(c))
  {
    var ends := Filter(chunks, MatchesEndpoint);
    var params := Filter(chunks, MatchesParameter);
    assert forall c :: c in ends + params ==> c in ends || c in params;
  }

  /** Nothing survives exactly when no chunk of the selection matches a tier. */
  lemma NoSurvivorsIff(chunks: seq<string>)
    ensures Prioritized(chunks) == [] <==>
            forall a :: 0 <= a < |chunks| ==> !MatchesEndpoint(chunks[a]) && !MatchesParameter(chunks[a])
  {
    var out := Prioritized(chunks);
    if out == [] {
      forall a | 0 <= a < |chunks|
        ensures !MatchesEndpoint(chunks[a]) && !MatchesParameter(chunks[a])
      {
        var c := chunks[a];
        PrioritizedCount(chunks, c);
        assert c in multiset(chunks);
      }
    } else {
      SurvivorsMatch(chunks);
      var c := out[0];
      assert c in out;
      var a :| 0 <= a < |chunks| && chunks[a] == c;
    }
  }

  /** Joining the survivors gives the empty string exactly when nothing survives. */
  lemma EmptyContextIff(chunks: seq<string>)
    ensures Join(Prioritized(chunks), "\n") == "" <==> Prioritized(chunks) == []
  {
    var out := Prioritized(chunks);
    SurvivorsMatch(chunks);
    forall k | 0 <= k < |out|
      ensures out[k] != ""
    {
      assert out[k] in out;
      MatchedChunkNonEmpty(out[k]);
    }
    JoinEmptyIff(out, "\n");
  }

  /**
   * The context holds every surviving chunk, each of them a chunk of the corpus
   * that matches a tier, and it is empty exactly when no selected chunk matches.
   */
  lemma ContextContents(docs: seq<string>, scores: seq<int>, order: seq<nat>, topK: int)
    requires |scores| == |docs| && IsArgsort(scores, order)
    ensures var sel := TopIndices(order, topK);
      var out := Prioritized(Relevant(docs, sel));
      var context := FindRelevantContext(docs, scores, order, topK);
      && (forall c :: c in out ==> c in docs && (MatchesEndpoint(c) || MatchesParameter(c)))
      && (forall k :: 0 <= k < |out| ==> Contains(context, out[k]))
      && (context == "" <==> forall a :: 0 <= a < |sel| ==> !MatchesEndpoint(docs[sel[a]]) && !MatchesParameter(docs[sel[a]]))
  {
    var sel := TopIndices(order, topK);
    var chunks := Relevant(docs, sel);
    var out := Prioritized(chunks);
    SurvivorsMatch(chunks);
    assert |chunks| == |sel| && forall a :: 0 <= a < |sel| ==> chunks[a] == docs[sel[a]];
    assert forall c :: c in chunks ==> c in docs;
    JoinContainsParts(out, "\n");
    EmptyContextIff(chunks);
    NoSurvivorsIff(chunks);
  }
}
