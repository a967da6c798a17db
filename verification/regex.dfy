/**
 The two shapes of regular expression the handlers use, written as predicates
 over strings instead of a general regex engine:

 - classification patterns `/k1\s+|k2\s+|…/i`, used with `RegExp.prototype.test`;
 - extraction patterns `/(?:k1|k2|…).*?(\n\n|\n|$)/i` (no `g`, `m` or `s` flag),
   used with `String.prototype.match`.

 A pattern is represented by its keyword alternatives, in lower case and in
 declaration order. The `i` flag is ASCII case folding: ECMAScript never folds
 a non-ASCII character onto an ASCII one, and every keyword is ASCII.
 */
module Regex {
  import opened Options
  import opened CharClass

  /** Every character of `k` is a lower-case ASCII letter. */
  predicate IsKeyword(k: string) {
    |k| > 0 && forall j :: 0 <= j < |k| ==> 'a' <= k[j] <= 'z'
  }

  /** Keyword `k` occurs at index `i` of `s`, ignoring ASCII case. */
  predicate KeywordAt(s: string, i: nat, k: string) {
    i + |k| <= |s| && forall j :: 0 <= j < |k| ==> Lower(s[i + j]) == k[j]
  }

  /** The first character of a keyword occurrence folds to the keyword's first letter. */
  lemma FirstLetterFolds(s: string, i: nat, k: string)
    ensures KeywordAt(s, i, k) && |k| > 0 ==> Lower(s[i]) == k[0]
  {
    if KeywordAt(s, i, k) && |k| > 0 {
      assert Lower(s[i + 0]) == k[0];
    }
  }

  // ---------------------------------------------------------------------------
  // Classification: `/k1\s+|k2\s+|…/i.test(s)`

  /** Some alternative `k\s+` matches at index `i`: the keyword, then at least one `\s`. */
  predicate SpacedKeywordAt(s: string, kws: seq<string>, i: nat) {
    exists k :: k in kws && KeywordAt(s, i, k) && i + |k| < |s| && IsSpace(s[i + |k|])
  }

  /** The classification pattern matches somewhere in `s`. */
  predicate Tests(s: string, kws: seq<string>) {
    exists i: nat :: i < |s| && SpacedKeywordAt(s, kws, i)
  }

  /** The regex engine's scan over start positions `from`, `from + 1`, … */
  function TestFrom(s: string, kws: seq<string>, from: nat): (r: bool)
    requires from <= |s|
    ensures r <==> exists i: nat :: from <= i < |s| && SpacedKeywordAt(s, kws, i)
    decreases |s| - from
  {
    if from == |s| then false
    else SpacedKeywordAt(s, kws, from) || TestFrom(s, kws, from + 1)
  }

  /** `pattern.test(s)`. */
  function Test(s: string, kws: seq<string>): (r: bool)
    ensures r <==> Tests(s, kws)
  {
    TestFrom(s, kws, 0)
  }

  // ---------------------------------------------------------------------------
  // Extraction: `s.match(/(?:k1|k2|…).*?(\n\n|\n|$)/i)`

  /** Every character of `s[a..b]` can be consumed by `.`. */
  predicate NoTerminator(s: string, a: nat, b: nat)
    requires a <= b <= |s|
  {
    forall j :: a <= j < b ==> !IsLineTerminator(s[j])
  }

  /**
   The tail `.*?(\n\n|\n|$)` run from index `p` succeeds with its capture group
   spanning `s[stop..end]`: `.` consumes `s[p..stop]`, and the group is `\n\n`
   when two newlines follow, a single `\n` otherwise, or the empty end of input.
   */
  predicate TailMatch(s: string, p: nat, stop: nat, end: nat) {
    && p <= stop <= |s|
    && NoTerminator(s, p, stop)
    && (|| (stop == |s| && end == |s|)
        || (stop < |s| && s[stop] == '\n'
            && end == (if stop + 1 < |s| && s[stop + 1] == '\n' then stop + 2 else stop + 1)))
  }

  /** Where the capture group of a successful tail starts and where the match ends. */
  datatype Tail = Tail(stop: nat, end: nat)

  /**
   The lazy tail in the engine's own order: at each position try `\n\n`, then
   `\n`, then `$`; otherwise let `.` take one more character, which it refuses
   for a line terminator, and then the tail fails.
   */
  function LazyTail(s: string, q: nat): (r: Option<Tail>)
    requires q <= |s|
    ensures r.Some? ==> TailMatch(s, q, r.value.stop, r.value.end)
    ensures r.None? ==> forall stop, end :: !TailMatch(s, q, stop, end)
    decreases |s| - q
  {
    if q + 1 < |s| && s[q] == '\n' && s[q + 1] == '\n' then Some(Tail(q, q + 2))
    else if q < |s| && s[q] == '\n' then Some(Tail(q, q + 1))
    else if q == |s| then Some(Tail(q, q))
    else if IsLineTerminator(s[q]) then None
    else
      var r := LazyTail(s, q + 1);
      assert forall stop, end :: TailMatch(s, q, stop, end) ==> TailMatch(s, q + 1, stop, end);
      r
  }

  /** The alternative `k` followed by the tail matches at index `i`. */
  predicate KeywordMatchAt(s: string, k: string, i: nat, stop: nat, end: nat) {
    KeywordAt(s, i, k) && TailMatch(s, i + |k|, stop, end)
  }

  /** The extraction pattern matches at index `i`, its group spanning `s[stop..end]`. */
  predicate IsMatchAt(s: string, kws: seq<string>, i: nat, stop: nat, end: nat) {
    exists k :: k in kws && KeywordMatchAt(s, k, i, stop, end)
  }

  /** The alternatives `(?:k1|k2|…)` tried in order at index `i`, each followed by the tail. */
  function MatchAt(s: string, kws: seq<string>, i: nat): (r: Option<Tail>)
    requires i <= |s|
    ensures r.Some? ==> IsMatchAt(s, kws, i, r.value.stop, r.value.end)
    ensures r.None? ==> forall stop, end :: !IsMatchAt(s, kws, i, stop, end)
    decreases |kws|
  {
    if |kws| == 0 then None
    else if KeywordAt(s, i, kws[0]) && LazyTail(s, i + |kws[0]|).Some? then
      var t := LazyTail(s, i + |kws[0]|).value;
      assert KeywordMatchAt(s, kws[0], i, t.stop, t.end);
      Some(t)
    else
      var r := MatchAt(s, kws[1..], i);
      if r.None? then NoMatchAtRest(s, kws, i); r
      else assert forall k :: k in kws[1..] ==> k in kws; r
  }

  /** No alternative matches at `i` when the first one fails and none of the others does. */
  lemma NoMatchAtRest(s: string, kws: seq<string>, i: nat)
    requires i <= |s| && |kws| > 0
    requires !(KeywordAt(s, i, kws[0]) && LazyTail(s, i + |kws[0]|).Some?)
    requires forall stop, end :: !IsMatchAt(s, kws[1..], i, stop, end)
    ensures forall stop, end :: !IsMatchAt(s, kws, i, stop, end)
  {
    forall k, stop, end | k in kws ensures !KeywordMatchAt(s, k, i, stop, end) {
      if k == kws[0] {
        if KeywordAt(s, i, k) {
          assert LazyTail(s, i + |k|).None?;
        }
      } else if KeywordMatchAt(s, k, i, stop, end) {
        assert k in kws[1..];
        assert IsMatchAt(s, kws[1..], i, stop, end);
        assert false;
      }
    }
  }

  /** A match: `s[start..end]` is the whole match, `s[stop..end]` its capture group. */
  datatype Span = Span(start: nat, stop: nat, end: nat)

  /** The engine tries start positions `from`, `from + 1`, …, `|s|` and keeps the first match. */
  function SearchFrom(s: string, kws: seq<string>, from: nat): (r: Option<Span>)
    requires from <= |s|
    ensures r.Some? ==> from <= r.value.start && IsMatchAt(s, kws, r.value.start, r.value.stop, r.value.end)
    ensures r.Some? ==> forall i: nat, stop, end :: from <= i < r.value.start ==> !IsMatchAt(s, kws, i, stop, end)
    ensures r.None? ==> forall i: nat, stop, end :: from <= i <= |s| ==> !IsMatchAt(s, kws, i, stop, end)
    decreases |s| - from
  {
    match MatchAt(s, kws, from)
    case Some(t) => Some(Span(from, t.stop, t.end))
    case None => if from == |s| then None else SearchFrom(s, kws, from + 1)
  }

  /** The leftmost match of the extraction pattern in `s`. */
  function Search(s: string, kws: seq<string>): (r: Option<Span>)
    ensures r.Some? ==> IsMatchAt(s, kws, r.value.start, r.value.stop, r.value.end)
    ensures r.Some? ==> forall i: nat, stop, end :: i < r.value.start ==> !IsMatchAt(s, kws, i, stop, end)
    ensures r.None? ==> forall i: nat, stop, end :: !IsMatchAt(s, kws, i, stop, end)
  {
    SearchFrom(s, kws, 0)
  }

  /**
   `s.match(pattern)` without the `g` flag: the match array (whole match, then
   the capture group), or `None` for `null`. A missing pattern (`undefined`)
   becomes the empty regular expression, which matches the empty string at
   index 0 and has no capture group.
   */
  function StringMatch(s: string, pattern: Option<seq<string>>): (r: Option<seq<string>>)
    ensures pattern.None? ==> r == Some([""])
    ensures pattern.Some? ==> (r.None? <==> forall i: nat, stop, end :: !IsMatchAt(s, pattern.value, i, stop, end))
    ensures pattern.Some? && r.Some? ==> |r.value| == 2
    ensures pattern.Some? && r.Some? ==>
              exists start: nat, stop: nat, end: nat ::
                && start <= stop <= end <= |s|
                && IsMatchAt(s, pattern.value, start, stop, end)
                && (forall i: nat, stop', end' :: i < start ==> !IsMatchAt(s, pattern.value, i, stop', end'))
                && r.value == [s[start..end], s[stop..end]]
  {
    match pattern
    case None => Some([""])
    case Some(kws) =>
      match Search(s, kws)
      case None => None
      case Some(sp) => Some([s[sp.start..sp.end], s[sp.stop..sp.end]])
  }

  // ---------------------------------------------------------------------------
  // Properties of the extraction search

  /** Every alternative of the pattern is a keyword. */
  predicate AllKeywords(kws: seq<string>) {
    forall k :: k in kws ==> IsKeyword(k)
  }

  /** `\n` is the only line terminator in `s`. */
  predicate OnlyNewlines(s: string) {
    forall j :: 0 <= j < |s| && IsLineTerminator(s[j]) ==> s[j] == '\n'
  }

  /** A keyword occurrence holds no line terminator: its letters are all `.` can match. */
  lemma KeywordHasNoTerminator(s: string, i: nat, k: string)
    requires IsKeyword(k) && KeywordAt(s, i, k)
    ensures NoTerminator(s, i, i + |k|)
  {
    forall j | i <= j < i + |k| ensures !IsLineTerminator(s[j]) {
      assert Lower(s[j]) == k[j - i];
    }
  }

  /** Without `\r`, U+2028 or U+2029 in the text, the lazy tail cannot fail. */
  lemma {:induction false} TailNeverFails(s: string, q: nat)
    requires q <= |s| && OnlyNewlines(s)
    ensures LazyTail(s, q).Some?
    decreases |s| - q
  {
    if q < |s| && s[q] != '\n' {
      TailNeverFails(s, q + 1);
    }
  }

  /**
   With `\n` as the only line terminator, the pattern matches iff one of its
   keywords occurs, and the match starts at the first occurrence.
   */
  lemma MatchStartsAtFirstKeyword(s: string, kws: seq<string>)
    requires OnlyNewlines(s)
    ensures Search(s, kws).Some? <==> exists i: nat, k :: k in kws && KeywordAt(s, i, k)
    ensures Search(s, kws).Some? ==>
              forall i: nat, k :: i < Search(s, kws).value.start && k in kws ==> !KeywordAt(s, i, k)
  {
    forall i: nat, k | k in kws && KeywordAt(s, i, k)
      ensures exists stop, end :: IsMatchAt(s, kws, i, stop, end)
    {
      TailNeverFails(s, i + |k|);
      var t := LazyTail(s, i + |k|).value;
      assert KeywordMatchAt(s, k, i, t.stop, t.end);
      assert IsMatchAt(s, kws, i, t.stop, t.end);
    }
  }

  /**
   The whole match is a line-bounded excerpt of `s`: it starts with a keyword,
   holds no line terminator before its capture group, and the group is `\n\n`
   when the first terminator is a newline followed by another, a single `\n`
   when it is a lone newline, and empty when the match runs to the end of `s`.
   */
  lemma ExcerptShape(s: string, kws: seq<string>)
    requires AllKeywords(kws) && Search(s, kws).Some?
    ensures var sp := Search(s, kws).value;
      && sp.start <= sp.stop <= sp.end <= |s|
      && (exists k :: k in kws && KeywordAt(s, sp.start, k))
      && NoTerminator(s, sp.start, sp.stop)
      && (sp.stop == |s| ==> s[sp.stop..sp.end] == "")
      && (sp.stop < |s| ==> s[sp.stop] == '\n')
      && (sp.stop + 1 < |s| && s[sp.stop] == '\n' && s[sp.stop + 1] == '\n' ==> s[sp.stop..sp.end] == "\n\n")
      && (sp.stop < |s| && !(sp.stop + 1 < |s| && s[sp.stop + 1] == '\n') ==> s[sp.stop..sp.end] == "\n")
  {
    var sp := Search(s, kws).value;
    var k :| k in kws && KeywordMatchAt(s, k, sp.start, sp.stop, sp.end);
    KeywordHasNoTerminator(s, sp.start, k);
    assert NoTerminator(s, sp.start + |k|, sp.stop);
  }

  /** The lazy tail is deterministic: where it starts fixes its group and its end. */
  lemma TailMatchUnique(s: string, p: nat, stop1: nat, end1: nat, stop2: nat, end2: nat)
    requires TailMatch(s, p, stop1, end1) && TailMatch(s, p, stop2, end2)
    ensures stop1 == stop2 && end1 == end2
  {
  }

  /** After a keyword, the tail ends where a tail from the keyword's first letter would. */
  lemma TailFromKeywordStart(s: string, i: nat, k: string, stop: nat, end: nat)
    requires IsKeyword(k) && KeywordAt(s, i, k) && TailMatch(s, i + |k|, stop, end)
    ensures TailMatch(s, i, stop, end)
  {
    KeywordHasNoTerminator(s, i, k);
  }

  /** All matches at one start position are the same match, whichever alternative they use. */
  lemma MatchAtUnique(s: string, kws: seq<string>, i: nat, stop1: nat, end1: nat, stop2: nat, end2: nat)
    requires AllKeywords(kws)
    requires IsMatchAt(s, kws, i, stop1, end1) && IsMatchAt(s, kws, i, stop2, end2)
    ensures stop1 == stop2 && end1 == end2
  {
    var k1 :| k1 in kws && KeywordMatchAt(s, k1, i, stop1, end1);
    var k2 :| k2 in kws && KeywordMatchAt(s, k2, i, stop2, end2);
    TailFromKeywordStart(s, i, k1, stop1, end1);
    TailFromKeywordStart(s, i, k2, stop2, end2);
    TailMatchUnique(s, i, stop1, end1, stop2, end2);
  }

  /** Conversely, a match with no match to its left is the one `Search` finds. */
  lemma LeftmostMatchIsFound(s: string, kws: seq<string>, i: nat, stop: nat, end: nat)
    requires AllKeywords(kws)
    requires IsMatchAt(s, kws, i, stop, end)
    requires forall j: nat, stop': nat, end': nat :: j < i ==> !IsMatchAt(s, kws, j, stop', end')
    ensures Search(s, kws) == Some(Span(i, stop, end))
  {
    var sp := Search(s, kws).value;
    assert sp.start == i;
    MatchAtUnique(s, kws, i, stop, end, sp.stop, sp.end);
  }
}
