/**
 * The string operations the retrieval engine and the answer post-processing
 * rely on: Python's `str.strip`/`str.isspace`, `str.lower` (ASCII letters),
 * the `in` substring test, `str.split`, `str.join` and the decimal rendering
 * of a list index.
 */
module Text {
  import opened Wrappers

  // ---------------------------------------------------------------------
  // Whitespace, strip and isspace
  // ---------------------------------------------------------------------

  /** The characters Python's `str.isspace()` accepts (and `str.strip()` removes). */
  predicate IsSpace(c: char) {
    || c == ' '
    || '\t' <= c <= '\r'
    || '\U{1c}' <= c <= '\U{1f}'
    || c == '\U{85}' || c == '\U{a0}' || c == '\U{1680}'
    || '\U{2000}' <= c <= '\U{200a}'
    || c == '\U{2028}' || c == '\U{2029}' || c == '\U{202f}' || c == '\U{205f}'
    || c == '\U{3000}'
  }

  /** `s.isspace()`: true when `s` is non-empty and made of whitespace only. */
  predicate IsBlank(s: string) {
    |s| > 0 && forall k :: 0 <= k < |s| ==> IsSpace(s[k])
  }

  /** Index of the first non-whitespace character of `s` (or `|s|`). */
  function ContentStart(s: string): (i: nat)
    ensures i <= |s|
    ensures forall k :: 0 <= k < i ==> IsSpace(s[k])
    ensures i < |s| ==> !IsSpace(s[i])
    decreases |s|
  {
    if |s| == 0 || !IsSpace(s[0]) then 0 else 1 + ContentStart(s[1..])
  }

  /** One past the last non-whitespace character of `s` at or after `lo` (or `lo`). */
  function ContentEnd(s: string, lo: nat): (j: nat)
    requires lo <= |s|
    ensures lo <= j <= |s|
    ensures forall k :: j <= k < |s| ==> IsSpace(s[k])
    ensures j > lo ==> !IsSpace(s[j - 1])
    decreases |s|
  {
    if |s| == lo || !IsSpace(s[|s| - 1]) then |s| else ContentEnd(s[..|s| - 1], lo)
  }

  /** `s.strip()` */
  function Strip(s: string): (r: string)
    ensures exists i, j ::
              && 0 <= i <= j <= |s| && r == s[i..j]
              && (forall k :: 0 <= k < i ==> IsSpace(s[k]))
              && (forall k :: j <= k < |s| ==> IsSpace(s[k]))
    ensures |r| <= |s|
    ensures r == "" || (!IsSpace(r[0]) && !IsSpace(r[|r| - 1]))
    ensures r == "" <==> forall k :: 0 <= k < |s| ==> IsSpace(s[k])
    ensures !IsBlank(r)
  {
    var i := ContentStart(s);
    var j := ContentEnd(s, i);
    assert i < |s| ==> j > i;
    s[i..j]
  }

  /** Stripping removes only surrounding whitespace: a substring of the result is one of `s`. */
  lemma StripKeepsSubstrings(s: string, t: string)
    requires Contains(Strip(s), t)
    ensures Contains(s, t)
  {
    var i := ContentStart(s);
    var j := ContentEnd(s, i);
    SliceKeepsSubstrings(s, i, j, t);
  }

  /** Stripping twice is stripping once. */
  lemma StripIdempotent(s: string)
    ensures Strip(Strip(s)) == Strip(s)
  {
    var r := Strip(s);
    if r != "" {
      assert ContentStart(r) == 0;
      assert ContentEnd(r, 0) == |r|;
    }
  }

  // ---------------------------------------------------------------------
  // Lower case
  // ---------------------------------------------------------------------

  /** A capital ASCII letter becomes its own small letter, 26 code points on. */
  function LowerChar(c: char): (d: char)
    ensures 'A' <= c <= 'Z' ==> 'a' <= d <= 'z' && d as int == c as int - 'A' as int + 'a' as int
    ensures !('A' <= c <= 'Z') ==> d == c
    ensures !('A' <= d <= 'Z')
  {
    if 'A' <= c <= 'Z' then (c as int - 'A' as int + 'a' as int) as char else c
  }

  /** `s.lower()` on ASCII letters; every other character is kept. */
  function Lower(s: string): (r: string)
    ensures |r| == |s|
    ensures forall k :: 0 <= k < |s| ==> r[k] == LowerChar(s[k])
  {
    seq(|s|, k requires 0 <= k < |s| => LowerChar(s[k]))
  }

  /** Lowering a lowered text changes nothing. */
  lemma LowerIdempotent(s: string)
    ensures Lower(Lower(s)) == Lower(s)
  {
    assert forall k :: 0 <= k < |s| ==> Lower(Lower(s))[k] == Lower(s)[k];
  }

  /**
   * The test `t.lower() in s.lower()` is case-insensitive: an occurrence of `t`
   * in `s`, in whatever case, is an occurrence of the lowered `t` in the lowered `s`.
   */
  lemma LowerKeepsSubstrings(s: string, t: string, i: nat)
    requires OccursAt(s, t, i)
    ensures OccursAt(Lower(s), Lower(t), i) && Contains(Lower(s), Lower(t))
  {
    OccursAtSlice(s, t, i);
    assert Lower(s)[i..i + |t|] == Lower(t) by {
      assert forall k :: 0 <= k < |t| ==> Lower(s)[i..i + |t|][k] == LowerChar(s[i + k]) == LowerChar(t[k]);
    }
    OccursAtSlice(Lower(s), Lower(t), i);
  }

  // ---------------------------------------------------------------------
  // Substring search: `t in s` and `s.find(t)`
  // ---------------------------------------------------------------------

  /** `t` occurs in `s` starting at index `i`. */
  predicate OccursAt(s: string, t: string, i: nat) {
    i + |t| <= |s| && MatchesFrom(s, t, i, 0)
  }

  /** The characters of `t` from index `j` on sit in `s` from index `i + j` on. */
  predicate MatchesFrom(s: string, t: string, i: nat, j: nat)
    requires i + |t| <= |s|
    decreases |t| - j
  {
    j >= |t| || (s[i + j] == t[j] && MatchesFrom(s, t, i, j + 1))
  }

  lemma {:induction false} MatchesFromSlice(s: string, t: string, i: nat, j: nat)
    requires i + |t| <= |s| && j <= |t|
    ensures MatchesFrom(s, t, i, j) <==> s[i + j..i + |t|] == t[j..]
    decreases |t| - j
  {
    if j < |t| {
      MatchesFromSlice(s, t, i, j + 1);
      assert s[i + j..i + |t|] == [s[i + j]] + s[i + j + 1..i + |t|];
      assert t[j..] == [t[j]] + t[j + 1..];
    }
  }

  lemma SliceOfSlice(s: string, a: nat, b: nat, c: nat, d: nat)
    requires a <= b <= |s| && c <= d <= b - a
    ensures s[a..b][c..d] == s[a + c..a + d]
  {
    assert forall m :: 0 <= m < d - c ==> s[a..b][c..d][m] == s[a + c + m];
  }

  /** An occurrence is a slice equal to `t`. */
  lemma OccursAtSlice(s: string, t: string, i: nat)
    requires i + |t| <= |s|
    ensures OccursAt(s, t, i) <==> s[i..i + |t|] == t
  {
    MatchesFromSlice(s, t, i, 0);
    assert t[0..] == t;
  }

  /** The first occurrence of `t` in `s` at or after `i`, as `s.find(t, i)` computes it. */
  function FindFrom(s: string, t: string, i: nat): (r: Option<nat>)
    ensures r.Some? ==> i <= r.value && OccursAt(s, t, r.value)
    decreases |s| - i
  {
    if i + |t| > |s| then None
    else if OccursAt(s, t, i) then Some(i)
    else FindFrom(s, t, i + 1)
  }

  /** The search finds the first occurrence from `i` on, and finds nothing only when there is none. */
  lemma {:induction false} FindFromFirst(s: string, t: string, i: nat)
    ensures FindFrom(s, t, i).Some? ==> forall k :: i <= k < FindFrom(s, t, i).value ==> !OccursAt(s, t, k)
    ensures FindFrom(s, t, i).None? ==> forall k: nat :: i <= k ==> !OccursAt(s, t, k)
    decreases |s| - i
  {
    if i + |t| <= |s| && !OccursAt(s, t, i) {
      FindFromFirst(s, t, i + 1);
    }
  }

  /** Python's `t in s`. */
  function Contains(s: string, t: string): (b: bool)
    ensures b <==> exists i: nat :: OccursAt(s, t, i)
  {
    FindFromFirst(s, t, 0);
    FindFrom(s, t, 0).Some?
  }

  lemma SliceKeepsSubstrings(s: string, i: nat, j: nat, t: string)
    requires i <= j <= |s|
    requires Contains(s[i..j], t)
    ensures Contains(s, t)
  {
    var u := s[i..j];
    var k: nat :| OccursAt(u, t, k);
    OccursAtSlice(u, t, k);
    SliceOfSlice(s, i, j, k, k + |t|);
    OccursAtSlice(s, t, i + k);
  }

  /** An occurrence inside the slice `s[a..b]` is an occurrence in `s` that ends by `b`. */
  lemma SliceOccurrences(s: string, t: string, a: nat, b: nat)
    requires a <= b <= |s|
    ensures forall k: nat :: OccursAt(s[a..b], t, k) ==> a + k + |t| <= b && OccursAt(s, t, a + k)
  {
    forall k: nat | OccursAt(s[a..b], t, k)
      ensures a + k + |t| <= b && OccursAt(s, t, a + k)
    {
      OccursAtSlice(s[a..b], t, k);
      SliceOfSlice(s, a, b, k, k + |t|);
      OccursAtSlice(s, t, a + k);
    }
  }

  /** When the search from `j` finds nothing, the suffix from `j` does not contain `t`. */
  lemma NoneAfter(s: string, t: string, j: nat)
    requires j <= |s| && FindFrom(s, t, j).None?
    ensures !Contains(s[j..], t)
  {
    FindFromFirst(s, t, j);
    SliceOccurrences(s, t, j, |s|);
    assert s[j..|s|] == s[j..];
  }

  /** An occurrence at or after `i` is an occurrence in the suffix from `i`. */
  lemma OccursInSuffix(s: string, t: string, i: nat, k: nat)
    requires i <= k && OccursAt(s, t, k)
    ensures OccursAt(s[i..], t, k - i)
  {
    OccursAtSlice(s, t, k);
    SliceOfSlice(s, i, |s|, k - i, k - i + |t|);
    assert s[i..|s|] == s[i..];
    OccursAtSlice(s[i..], t, k - i);
  }

  // ---------------------------------------------------------------------
  // split and join
  // ---------------------------------------------------------------------

  /** The pieces of `s[start..]` between the leftmost non-overlapping occurrences of `sep`. */
  function SplitFrom(s: string, sep: string, start: nat): (parts: seq<string>)
    requires sep != "" && start <= |s|
    ensures |parts| >= 1
    decreases |s| - start
  {
    match FindFrom(s, sep, start)
    case None => [s[start..]]
    case Some(i) => [s[start..i]] + SplitFrom(s, sep, i + |sep|)
  }

  /** There is more than one piece exactly when the separator occurs. */
  lemma SplitFromCount(s: string, sep: string, start: nat)
    requires sep != "" && start <= |s|
    ensures |SplitFrom(s, sep, start)| >= 2 <==> FindFrom(s, sep, start).Some?
  {
  }

  /** `s.split(sep)` */
  function Split(s: string, sep: string): (parts: seq<string>)
    requires sep != ""
    ensures |parts| >= 1
    ensures |parts| >= 2 <==> Contains(s, sep)
  {
    SplitFromCount(s, sep, 0);
    SplitFrom(s, sep, 0)
  }

  /** `sep.join(parts)` */
  function Join(parts: seq<string>, sep: string): (r: string)
    decreases |parts|
  {
    if |parts| == 0 then ""
    else if |parts| == 1 then parts[0]
    else parts[0] + sep + Join(parts[1..], sep)
  }

  lemma {:induction false} JoinSplitFrom(s: string, sep: string, start: nat)
    requires sep != "" && start <= |s|
    ensures Join(SplitFrom(s, sep, start), sep) == s[start..]
    decreases |s| - start
  {
    match FindFrom(s, sep, start)
    case None =>
    case Some(i) =>
      var tail := SplitFrom(s, sep, i + |sep|);
      JoinSplitFrom(s, sep, i + |sep|);
      assert SplitFrom(s, sep, start)[1..] == tail;
      assert s[start..] == s[start..i] + sep + s[i + |sep|..] by {
        OccursAtSlice(s, sep, i);
      }
  }

  /** Joining the pieces of a split with the same separator gives back the string. */
  lemma JoinSplit(s: string, sep: string)
    requires sep != ""
    ensures Join(Split(s, sep), sep) == s
  {
    JoinSplitFrom(s, sep, 0);
  }

  /** The text before the first occurrence found from `start` holds no occurrence. */
  lemma BeforeFirstLacksSeparator(s: string, sep: string, start: nat, i: nat)
    requires sep != "" && start <= |s| && FindFrom(s, sep, start) == Some(i)
    ensures start <= i <= |s| && !Contains(s[start..i], sep)
  {
    FindFromFirst(s, sep, start);
    SliceOccurrences(s, sep, start, i);
  }

  /** The first piece from `start` runs up to the end of `s` or up to an occurrence. */
  lemma SplitFromHead(s: string, sep: string, start: nat)
    requires sep != "" && start <= |s|
    ensures var end := start + |SplitFrom(s, sep, start)[0]|;
      && end <= |s| && s[start..end] == SplitFrom(s, sep, start)[0]
      && (end == |s| || OccursAt(s, sep, end))
  {
  }

  lemma {:induction false} SplitFromPiecesLackSeparator(s: string, sep: string, start: nat)
    requires sep != "" && start <= |s|
    ensures forall k :: 0 <= k < |SplitFrom(s, sep, start)| ==> !Contains(SplitFrom(s, sep, start)[k], sep)
    decreases |s| - start
  {
    match FindFrom(s, sep, start)
    case None =>
      NoneAfter(s, sep, start);
    case Some(i) =>
      var tail := SplitFrom(s, sep, i + |sep|);
      SplitFromPiecesLackSeparator(s, sep, i + |sep|);
      BeforeFirstLacksSeparator(s, sep, start, i);
      assert SplitFrom(s, sep, start) == [s[start..i]] + tail;
  }

  /** No piece of a split contains the separator. */
  lemma SplitPiecesLackSeparator(s: string, sep: string)
    requires sep != ""
    ensures forall k :: 0 <= k < |Split(s, sep)| ==> !Contains(Split(s, sep)[k], sep)
  {
    SplitFromPiecesLackSeparator(s, sep, 0);
  }

  /** What follows the last of the leftmost non-overlapping occurrences of `sep` from `start` on. */
  function AfterLast(s: string, sep: string, start: nat): (r: string)
    requires sep != "" && start <= |s|
    decreases |s| - start
  {
    match FindFrom(s, sep, start)
    case None => s[start..]
    case Some(i) => AfterLast(s, sep, i + |sep|)
  }

  lemma {:induction false} SplitFromLast(s: string, sep: string, start: nat)
    requires sep != "" && start <= |s|
    ensures SplitFrom(s, sep, start)[|SplitFrom(s, sep, start)| - 1] == AfterLast(s, sep, start)
    decreases |s| - start
  {
    match FindFrom(s, sep, start)
    case None =>
    case Some(first) =>
      SplitFromLastStep(s, sep, start, first);
      SplitFromLast(s, sep, first + |sep|);
  }

  /** When the separator occurs, what follows its last occurrence is a suffix of `s`. */
  lemma {:induction false} AfterLastOccurrence(s: string, sep: string, start: nat) returns (i: nat)
    requires sep != "" && start <= |s| && FindFrom(s, sep, start).Some?
    ensures start <= i && OccursAt(s, sep, i)
    ensures AfterLast(s, sep, start) == s[i + |sep|..]
    decreases |s| - start
  {
    var first := FindFrom(s, sep, start).value;
    if FindFrom(s, sep, first + |sep|).Some? {
      i := AfterLastOccurrence(s, sep, first + |sep|);
    } else {
      i := first;
    }
  }

  /** What follows the last occurrence holds no further occurrence. */
  lemma {:induction false} AfterLastLacksSeparator(s: string, sep: string, start: nat)
    requires sep != "" && start <= |s|
    ensures !Contains(AfterLast(s, sep, start), sep)
    decreases |s| - start
  {
    match FindFrom(s, sep, start)
    case None =>
      NoneAfter(s, sep, start);
    case Some(i) =>
      AfterLastLacksSeparator(s, sep, i + |sep|);
  }

  /** Past the first occurrence, the last piece is the last piece of the rest. */
  lemma SplitFromLastStep(s: string, sep: string, start: nat, first: nat)
    requires sep != "" && start <= |s| && FindFrom(s, sep, start) == Some(first)
    ensures first + |sep| <= |s|
    ensures SplitFrom(s, sep, start)[|SplitFrom(s, sep, start)| - 1]
         == SplitFrom(s, sep, first + |sep|)[|SplitFrom(s, sep, first + |sep|)| - 1]
  {
    var tail := SplitFrom(s, sep, first + |sep|);
    assert SplitFrom(s, sep, start) == [s[start..first]] + tail;
    assert ([s[start..first]] + tail)[|tail|] == tail[|tail| - 1];
  }

  /** The last piece of a split is everything after the LAST occurrence of the separator. */
  lemma SplitLastPiece(s: string, sep: string) returns (i: nat)
    requires sep != "" && Contains(s, sep)
    ensures OccursAt(s, sep, i)
    ensures Split(s, sep)[|Split(s, sep)| - 1] == s[i + |sep|..]
    ensures !Contains(s[i + |sep|..], sep)
  {
    SplitFromLast(s, sep, 0);
    AfterLastLacksSeparator(s, sep, 0);
    i := AfterLastOccurrence(s, sep, 0);
  }

  /**
   * The second piece of a split is what lies between the first occurrence of
   * the separator and the next one (or the end of the string).
   */
  lemma SplitSecondPiece(s: string, sep: string) returns (i: nat)
    requires sep != "" && Contains(s, sep)
    ensures OccursAt(s, sep, i) && !Contains(s[..i], sep)
    ensures forall k: nat :: k < i ==> !OccursAt(s, sep, k)
    ensures var piece := Split(s, sep)[1];
      var end := i + |sep| + |piece|;
      && end <= |s| && s[i + |sep|..end] == piece
      && !Contains(piece, sep)
      && (end == |s| || OccursAt(s, sep, end))
  {
    SplitPiecesLackSeparator(s, sep);
    i := FindFrom(s, sep, 0).value;
    FindFromFirst(s, sep, 0);
    BeforeFirstLacksSeparator(s, sep, 0, i);
    assert s[0..i] == s[..i];
    SplitFromHead(s, sep, i + |sep|);
    var tail := SplitFrom(s, sep, i + |sep|);
    assert Split(s, sep) == [s[..i]] + tail;
  }

  /** Every part of a join occurs in the joined string. */
  lemma {:induction false} JoinContainsParts(parts: seq<string>, sep: string)
    ensures forall k :: 0 <= k < |parts| ==> Contains(Join(parts, sep), parts[k])
    decreases |parts|
  {
    if |parts| == 1 {
      OccursAtSlice(parts[0], parts[0], 0);
      assert parts[0][0..|parts[0]|] == parts[0];
    } else if |parts| > 1 {
      var tail := Join(parts[1..], sep);
      var whole := parts[0] + sep + tail;
      JoinContainsParts(parts[1..], sep);
      assert OccursAt(whole, parts[0], 0) by {
        OccursAtSlice(whole, parts[0], 0);
        assert whole[0..|parts[0]|] == parts[0];
      }
      forall k | 1 <= k < |parts|
        ensures Contains(whole, parts[k])
      {
        assert parts[1..][k - 1] == parts[k];
        var off := |parts[0]| + |sep|;
        assert whole[off..|whole|] == tail;
        SliceKeepsSubstrings(whole, off, |whole|, parts[k]);
      }
    }
  }

  /** A join of non-empty parts is empty exactly when there are no parts. */
  lemma {:induction false} JoinEmptyIff(parts: seq<string>, sep: string)
    requires forall k :: 0 <= k < |parts| ==> parts[k] != ""
    ensures Join(parts, sep) == "" <==> |parts| == 0
  {
    if |parts| > 0 {
      JoinContainsParts(parts, sep);
      var i: nat :| OccursAt(Join(parts, sep), parts[0], i);
    }
  }

  // ---------------------------------------------------------------------
  // Decimal rendering of an index: `f"{i}"`
  // ---------------------------------------------------------------------

  predicate IsDigit(c: char) {
    '0' <= c <= '9'
  }

  function DigitChar(d: nat): (c: char)
    requires d < 10
    ensures IsDigit(c)
  {
    ('0' as int + d) as char
  }

  /** The decimal digits of `n`, without leading zeros. */
  function NatToString(n: nat): (r: string)
    ensures |r| >= 1 && forall k :: 0 <= k < |r| ==> IsDigit(r[k])
    ensures (|r| == 1) == (n < 10)
    ensures (r[0] == '0') == (n == 0)
    decreases n
  {
    if n < 10 then [DigitChar(n)] else NatToString(n / 10) + [DigitChar(n % 10)]
  }

  /** The number a string of decimal digits denotes. */
  function DigitsValue(s: string): nat
    requires forall k :: 0 <= k < |s| ==> IsDigit(s[k])
    decreases |s|
  {
    if s == [] then 0
    else
      var last := s[|s| - 1];
      assert IsDigit(last);
      DigitsValue(s[..|s| - 1]) * 10 + (last as int - '0' as int)
  }

  /** Reading the rendered digits back gives the index. */
  lemma {:induction false} NatToStringRoundTrip(n: nat)
    ensures DigitsValue(NatToString(n)) == n
    decreases n
  {
    var r := NatToString(n);
    if n >= 10 {
      NatToStringRoundTrip(n / 10);
      assert r[..|r| - 1] == NatToString(n / 10);
    }
  }
}
