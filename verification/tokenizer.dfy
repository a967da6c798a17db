/**
 The word list of `preprocessText`: strip punctuation, lower-case, split on
 runs of whitespace.
 */
module Tokenizer {
  import opened CharClass

  /** `t` holds no `\s` character. */
  predicate NoSpace(t: string) {
    forall j :: 0 <= j < |t| ==> !IsSpace(t[j])
  }

  /** `text.replace(/[^\w\s]/g, "")`: drops every character that is neither `\w` nor `\s`. */
  function StripPunctuation(s: string): (r: string)
    ensures |r| <= |s|
    ensures forall c :: c in r <==> c in s && (IsWordChar(c) || IsSpace(c))
  {
    if |s| == 0 then ""
    else if IsWordChar(s[0]) || IsSpace(s[0]) then [s[0]] + StripPunctuation(s[1..])
    else StripPunctuation(s[1..])
  }

  /** `toLowerCase`, which on `\w` and `\s` characters only changes ASCII capitals. */
  function LowerAll(s: string): (r: string)
    ensures |r| == |s|
    ensures forall j :: 0 <= j < |s| ==> r[j] == Lower(s[j])
  {
    seq(|s|, j requires 0 <= j < |s| => Lower(s[j]))
  }

  /** Index of the first `\s` character at or after `i`, or `|s|` when there is none. */
  function NextSpace(s: string, i: nat): (j: nat)
    requires i <= |s|
    ensures i <= j <= |s|
    ensures j < |s| ==> IsSpace(s[j])
    ensures forall m :: i <= m < j ==> !IsSpace(s[m])
    decreases |s| - i
  {
    if i == |s| || IsSpace(s[i]) then i else NextSpace(s, i + 1)
  }

  /** End of the run of `\s` characters that starts at `i`. */
  function SkipSpaces(s: string, i: nat): (j: nat)
    requires i <= |s|
    ensures i <= j <= |s|
    ensures j < |s| ==> !IsSpace(s[j])
    ensures forall m :: i <= m < j ==> IsSpace(s[m])
    decreases |s| - i
  {
    if i == |s| || !IsSpace(s[i]) then i else SkipSpaces(s, i + 1)
  }

  /**
   `s.split(/\s+/)`: the pieces between maximal runs of `\s`. A leading or
   trailing run yields an empty first or last piece, and `""` splits to `[""]`.
   */
  function Split(s: string): (r: seq<string>)
    ensures |r| >= 1
    ensures forall m :: 0 <= m < |r| ==> NoSpace(r[m])
    ensures forall m, c :: 0 <= m < |r| && c in r[m] ==> c in s
    decreases |s|
  {
    var j := NextSpace(s, 0);
    if j == |s| then [s]
    else
      var k := SkipSpaces(s, j);
      var rest := Split(s[k..]);
      assert forall c :: c in s[k..] ==> c in s;
      [s[..j]] + rest
  }

  /** The `words` field of `preprocessText`. */
  function Words(text: string): (r: seq<string>)
    ensures |r| >= 1
    ensures forall m, j :: 0 <= m < |r| && 0 <= j < |r[m]| ==> IsLowerWordChar(r[m][j])
  {
    var lowered := LowerAll(StripPunctuation(text));
    var r := Split(lowered);
    assert forall m, j :: 0 <= m < |r| && 0 <= j < |r[m]| ==> r[m][j] in lowered && !IsSpace(r[m][j]);
    r
  }

  /** `Array.prototype.join`: the pieces with `sep` between neighbours. */
  function Join(ts: seq<string>, sep: string): (r: string)
    ensures |ts| == 0 ==> r == ""
    ensures |ts| == 1 ==> r == ts[0]
    ensures |ts| >= 1 ==> |r| >= |ts[0]| && r[..|ts[0]|] == ts[0]
  {
    if |ts| == 0 then ""
    else if |ts| == 1 then ts[0]
    else ts[0] + sep + Join(ts[1..], sep)
  }

  /** All pieces concatenated, with nothing between them. */
  function Concat(ts: seq<string>): string {
    if |ts| == 0 then "" else ts[0] + Concat(ts[1..])
  }

  /** The characters of `s` that are not `\s`, in order. */
  function RemoveSpaces(s: string): string {
    if |s| == 0 then ""
    else if IsSpace(s[0]) then RemoveSpaces(s[1..])
    else [s[0]] + RemoveSpaces(s[1..])
  }

  /** The `\w` characters of `s`, in order: a reference for what the word list keeps. */
  function WordChars(s: string): string {
    if |s| == 0 then ""
    else if IsWordChar(s[0]) then [s[0]] + WordChars(s[1..])
    else WordChars(s[1..])
  }

  // ---------------------------------------------------------------------------
  // Properties

  /** Stripping punctuation twice removes nothing more than stripping it once. */
  lemma {:induction false} StripPunctuationIdempotent(s: string)
    ensures StripPunctuation(StripPunctuation(s)) == StripPunctuation(s)
  {
    if |s| > 0 {
      StripPunctuationIdempotent(s[1..]);
      if IsWordChar(s[0]) || IsSpace(s[0]) {
        assert ([s[0]] + StripPunctuation(s[1..]))[1..] == StripPunctuation(s[1..]);
      }
    }
  }

  lemma {:induction false} RemoveSpacesAppend(a: string, b: string)
    ensures RemoveSpaces(a + b) == RemoveSpaces(a) + RemoveSpaces(b)
  {
    if |a| > 0 {
      assert (a + b)[1..] == a[1..] + b;
      RemoveSpacesAppend(a[1..], b);
    } else {
      assert a + b == b;
    }
  }

  lemma {:induction false} RemoveSpacesOfWord(t: string)
    requires NoSpace(t)
    ensures RemoveSpaces(t) == t
  {
    if |t| > 0 {
      RemoveSpacesOfWord(t[1..]);
      assert [t[0]] + t[1..] == t;
    }
  }

  lemma {:induction false} RemoveSpacesOfRun(t: string)
    requires forall j :: 0 <= j < |t| ==> IsSpace(t[j])
    ensures RemoveSpaces(t) == ""
  {
    if |t| > 0 {
      RemoveSpacesOfRun(t[1..]);
    }
  }

  /** Splitting loses exactly the whitespace: the words, put back together, are the non-space characters in order. */
  lemma {:induction false} SplitKeepsNonSpace(s: string)
    ensures Concat(Split(s)) == RemoveSpaces(s)
    decreases |s|
  {
    var j := NextSpace(s, 0);
    if j == |s| {
      RemoveSpacesOfWord(s);
      assert Concat(Split(s)) == s + Concat([]);
    } else {
      var k := SkipSpaces(s, j);
      var a, b, c := s[..j], s[j..k], s[k..];
      var rest := Split(c);
      assert Split(s) == [a] + rest;
      assert ([a] + rest)[1..] == rest;
      assert Concat(Split(s)) == a + Concat(rest);
      SplitKeepsNonSpace(c);
      RemoveSpacesAcrossRun(s, j, k);
    }
  }

  /** Dropping the spaces of `s` around a run of spaces `s[j..k]` preceded by a word. */
  lemma {:induction false} RemoveSpacesAcrossRun(s: string, j: nat, k: nat)
    requires j <= k <= |s|
    requires NoSpace(s[..j])
    requires forall m :: j <= m < k ==> IsSpace(s[m])
    ensures RemoveSpaces(s) == s[..j] + RemoveSpaces(s[k..])
  {
    var a, b, c := s[..j], s[j..k], s[k..];
    assert s == (a + b) + c;
    assert forall m :: 0 <= m < |b| ==> b[m] == s[j + m];
    RemoveSpacesAppend(a + b, c);
    RemoveSpacesAppend(a, b);
    RemoveSpacesOfWord(a);
    RemoveSpacesOfRun(b);
  }

  /**
   Splitting undoes joining with a single space, for a non-empty list of
   non-empty words without whitespace.
   */
  lemma {:induction false} SplitJoinRoundTrip(ts: seq<string>)
    requires |ts| >= 1
    requires forall m :: 0 <= m < |ts| ==> |ts[m]| > 0 && NoSpace(ts[m])
    ensures Split(Join(ts, " ")) == ts
    decreases |ts|
  {
    var s := Join(ts, " ");
    var t := ts[0];
    if |ts| == 1 {
      assert NextSpace(s, 0) == |s|;
    } else {
      var rest := Join(ts[1..], " ");
      assert s == t + " " + rest;
      assert rest[0] == ts[1][0];
      var j := NextSpace(s, 0);
      assert s[|t|] == ' ';
      assert j == |t|;
      var k := SkipSpaces(s, j);
      assert s[|t| + 1] == ts[1][0];
      assert k == |t| + 1;
      assert s[..j] == t;
      assert s[k..] == rest;
      SplitJoinRoundTrip(ts[1..]);
      assert Split(s) == [t] + ts[1..];
    }
  }

  /**
   `Array.prototype.join` works left to right: appending a piece to a
   non-empty list appends the separator and that piece to the result.
   */
  lemma {:induction false} JoinAppend(ts: seq<string>, t: string, sep: string)
    requires |ts| >= 1
    ensures Join(ts + [t], sep) == Join(ts, sep) + sep + t
    decreases |ts|
  {
    if |ts| == 1 {
      assert ts + [t] == [ts[0], t];
      assert [ts[0], t][1..] == [t];
    } else {
      assert (ts + [t])[1..] == ts[1..] + [t];
      JoinAppend(ts[1..], t, sep);
    }
  }

  /** Joining two or more pieces puts the separator into the result. */
  lemma {:induction false} JoinShowsSeparator(ts: seq<string>, sep: string)
    requires |ts| >= 2 && |sep| > 0
    ensures sep[0] in Join(ts, sep)
  {
    var r := Join(ts, sep);
    assert r == ts[0] + sep + Join(ts[1..], sep);
    assert r[|ts[0]|] == sep[0];
  }

  lemma LowerAllCons(c: char, s: string)
    ensures LowerAll([c] + s) == [Lower(c)] + LowerAll(s)
  {
  }

  /** Lower-casing commutes with dropping punctuation and whitespace. */
  lemma {:induction false} StrippedLettersInOrder(s: string)
    ensures RemoveSpaces(LowerAll(StripPunctuation(s))) == LowerAll(WordChars(s))
  {
    if |s| > 0 {
      StrippedLettersInOrder(s[1..]);
      var t := StripPunctuation(s[1..]);
      if IsWordChar(s[0]) || IsSpace(s[0]) {
        LowerAllCons(s[0], t);
        assert ([Lower(s[0])] + LowerAll(t))[1..] == LowerAll(t);
        if IsWordChar(s[0]) {
          LowerAllCons(s[0], WordChars(s[1..]));
        }
      }
    }
  }

  /**
   The word list keeps exactly the `\w` characters of the text, lower-cased and
   in their original order: the pieces, put back together, spell them out.
   */
  lemma WordsKeepWordChars(text: string)
    ensures Concat(Words(text)) == LowerAll(WordChars(text))
  {
    SplitKeepsNonSpace(LowerAll(StripPunctuation(text)));
    StrippedLettersInOrder(text);
  }

  /** Removing punctuation works piece by piece: it distributes over concatenation. */
  lemma {:induction false} StripPunctuationAppend(a: string, b: string)
    ensures StripPunctuation(a + b) == StripPunctuation(a) + StripPunctuation(b)
  {
    if |a| == 0 {
      assert a + b == b;
    } else {
      assert (a + b)[0] == a[0];
      assert (a + b)[1..] == a[1..] + b;
      StripPunctuationAppend(a[1..], b);
    }
  }

  /** On one character: a word or whitespace character is kept, any other is dropped. */
  lemma StripPunctuationOne(c: char)
    ensures StripPunctuation([c]) == if IsWordChar(c) || IsSpace(c) then [c] else ""
  {
    assert [c][1..] == "";
  }

  /** A string made only of word and whitespace characters has no punctuation to remove. */
  lemma {:induction false} StripPunctuationKeeps(t: string)
    requires forall m :: 0 <= m < |t| ==> IsWordChar(t[m]) || IsSpace(t[m])
    ensures StripPunctuation(t) == t
  {
    if |t| > 0 {
      StripPunctuationKeeps(t[1..]);
      assert [t[0]] + t[1..] == t;
    }
  }

  lemma LowerAllAppend(a: string, b: string)
    ensures LowerAll(a + b) == LowerAll(a) + LowerAll(b)
  {
  }

  /** A string with no whitespace is one piece. */
  lemma SplitOfWord(a: string)
    requires NoSpace(a)
    ensures Split(a) == [a]
  {
    var j := NextSpace(a, 0);
    assert j == |a|;
  }

  /**
   The cut after the first piece: a space-free piece `a`, a non-empty run of
   whitespace `w`, and a rest `b` that does not start with whitespace split into
   `a` followed by the pieces of `b`. So the whole run is one cut, and a
   trailing run leaves an empty last piece (`b == ""`).
   */
  lemma SplitAcrossRun(a: string, w: string, b: string)
    requires NoSpace(a)
    requires |w| > 0 && forall m :: 0 <= m < |w| ==> IsSpace(w[m])
    requires b == "" || !IsSpace(b[0])
    ensures Split(a + w + b) == [a] + Split(b)
  {
    var s := a + w + b;
    var n := |a| + |w|;
    assert forall m :: 0 <= m < |a| ==> s[m] == a[m];
    assert forall m :: |a| <= m < n ==> s[m] == w[m - |a|];
    assert n < |s| ==> s[n] == b[0];
    var j := NextSpace(s, 0);
    assert s[|a|] == w[0];
    assert j == |a|;
    var k := SkipSpaces(s, j);
    assert k == n;
    assert s[..j] == a;
    assert s[k..] == b;
  }

  /** A run of word characters is one lower-cased word. */
  lemma WordsOfWord(a: string)
    requires forall m :: 0 <= m < |a| ==> IsWordChar(a[m])
    ensures Words(a) == [LowerAll(a)]
  {
    StripPunctuationKeeps(a);
    SplitOfWord(LowerAll(a));
  }

  /**
   The cut carried to the word list: word characters `a`, a non-empty run of
   whitespace `w`, and a rest `b` starting with a word character give the
   lower-cased `a` followed by the words of `b`. With `b == ""` the list ends
   in an empty word.
   */
  lemma WordsAcrossRun(a: string, w: string, b: string)
    requires forall m :: 0 <= m < |a| ==> IsWordChar(a[m])
    requires |w| > 0 && forall m :: 0 <= m < |w| ==> IsSpace(w[m])
    requires b == "" || IsWordChar(b[0])
    ensures Words(a + w + b) == [LowerAll(a)] + Words(b)
  {
    StrippedPieces(a, w, b);
    LoweredPieces(a, w, b);
    SplitAcrossRun(LowerAll(a), LowerAll(w), LowerAll(StripPunctuation(b)));
  }

  lemma StrippedPieces(a: string, w: string, b: string)
    requires forall m :: 0 <= m < |a| ==> IsWordChar(a[m])
    requires forall m :: 0 <= m < |w| ==> IsSpace(w[m])
    requires b == "" || IsWordChar(b[0])
    ensures LowerAll(StripPunctuation(a + w + b)) == LowerAll(a) + LowerAll(w) + LowerAll(StripPunctuation(b))
    ensures b != "" ==> |StripPunctuation(b)| > 0 && StripPunctuation(b)[0] == b[0]
  {
    StripPunctuationAppend(a + w, b);
    StripPunctuationAppend(a, w);
    StripPunctuationKeeps(a);
    StripPunctuationKeeps(w);
    LowerAllAppend(a + w, StripPunctuation(b));
    LowerAllAppend(a, w);
    if b != "" {
      assert b == [b[0]] + b[1..];
      StripPunctuationAppend([b[0]], b[1..]);
      StripPunctuationOne(b[0]);
    }
  }

  lemma LoweredPieces(a: string, w: string, b: string)
    requires forall m :: 0 <= m < |a| ==> IsWordChar(a[m])
    requires forall m :: 0 <= m < |w| ==> IsSpace(w[m])
    requires b == "" || (|StripPunctuation(b)| > 0 && IsWordChar(StripPunctuation(b)[0]))
    ensures NoSpace(LowerAll(a))
    ensures forall m :: 0 <= m < |LowerAll(w)| ==> IsSpace(LowerAll(w)[m])
    ensures var lb := LowerAll(StripPunctuation(b)); lb == "" || !IsSpace(lb[0])
  {
  }

  /** The empty question gives one empty word. */
  lemma WordsOfEmpty()
    ensures Words("") == [""]
  {
    assert LowerAll(StripPunctuation("")) == "";
    SplitOfWord("");
  }
}
