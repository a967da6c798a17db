/**
 The question classifier of `preprocessText`: the first entry of
 `questionPatterns`, in declaration order, whose pattern `test`s the raw
 question decides the question type.
 */
module Classifier {
  import opened Regex
  import Tokenizer

  datatype Category = Who | What | Where | When | Why | How | YesNo | Unknown

  /** The `questionType` string the handler uses as a property key. */
  function Name(c: Category): string {
    match c
    case Who => "who"
    case What => "what"
    case Where => "where"
    case When => "when"
    case Why => "why"
    case How => "how"
    case YesNo => "yes_no"
    case Unknown => "unknown"
  }

  /** The entries of `questionPatterns`, in declaration order. */
  const PatternOrder: seq<Category> := [Who, What, Where, When, Why, How, YesNo]

  /** Position of a category in `PatternOrder`; `Unknown` comes after every entry. */
  function Rank(c: Category): nat {
    match c
    case Who => 0
    case What => 1
    case Where => 2
    case When => 3
    case Why => 4
    case How => 5
    case YesNo => 6
    case Unknown => 7
  }

  /** The alternatives of each classification pattern, each one followed by `\s+`. */
  function QuestionKeywords(c: Category): seq<string> {
    match c
    case Who => ["who", "whom"]
    case What => ["what"]
    case Where => ["where"]
    case When => ["when"]
    case Why => ["why"]
    case How => ["how"]
    case YesNo => ["is", "are", "do", "does", "can", "will", "would", "should"]
    case Unknown => []
  }

  /** The pattern of category `c` matches somewhere in question `q`; `Unknown` has no pattern. */
  predicate PatternMatches(q: string, c: Category) {
    c != Unknown && Tests(q, QuestionKeywords(c))
  }

  /** One iteration's test: the pattern of `c` matches `q`. */
  function Matches(q: string, c: Category): (b: bool)
    ensures b <==> PatternMatches(q, c)
  {
    c != Unknown && Test(q, QuestionKeywords(c))
  }

  /**
   The `for … of Object.entries(questionPatterns)` loop with its `break`, over
   the entries `cats` from index `from` on: the index it stops at, or `|cats|`
   when it runs to the end.
   */
  function FirstMatching(q: string, cats: seq<Category>, from: nat): (m: nat)
    requires from <= |cats|
    ensures from <= m <= |cats|
    ensures m < |cats| ==> PatternMatches(q, cats[m])
    ensures forall n :: from <= n < m ==> !PatternMatches(q, cats[n])
    decreases |cats| - from
  {
    if from == |cats| then from
    else if Matches(q, cats[from]) then from
    else FirstMatching(q, cats, from + 1)
  }

  /**
   The question type: the first category in declaration order whose pattern
   matches, and `Unknown` exactly when none does.
   */
  function Classify(q: string): (r: Category)
    ensures r == Unknown <==> forall c :: !PatternMatches(q, c)
    ensures r != Unknown ==> PatternMatches(q, r) && forall c :: Rank(c) < Rank(r) ==> !PatternMatches(q, c)
  {
    var m := FirstMatching(q, PatternOrder, 0);
    FirstInPatternOrder(q, m);
    if m < |PatternOrder| then PatternOrder[m] else Unknown
  }

  lemma FirstInPatternOrder(q: string, m: nat)
    requires m <= |PatternOrder|
    requires m < |PatternOrder| ==> PatternMatches(q, PatternOrder[m])
    requires forall n :: 0 <= n < m ==> !PatternMatches(q, PatternOrder[n])
    ensures m == |PatternOrder| ==> forall c :: !PatternMatches(q, c)
    ensures m < |PatternOrder| ==> forall c :: Rank(c) < m ==> !PatternMatches(q, c)
    ensures m < |PatternOrder| ==> PatternOrder[m] != Unknown && Rank(PatternOrder[m]) == m
  {
    RankIsPosition();
    forall c | c != Unknown && Rank(c) < m ensures !PatternMatches(q, c) {
      assert PatternOrder[Rank(c)] == c;
    }
  }

  /** `Rank` is the position in `PatternOrder`, and `Unknown` does not occur there. */
  lemma RankIsPosition()
    ensures forall c :: c != Unknown ==> 0 <= Rank(c) < |PatternOrder| && PatternOrder[Rank(c)] == c
    ensures forall m :: 0 <= m < |PatternOrder| ==> PatternOrder[m] != Unknown && Rank(PatternOrder[m]) == m
  {
  }

  /** The result of `preprocessText`. */
  datatype Processed = Processed(words: seq<string>, questionType: Category)

  function Preprocess(text: string): (r: Processed)
    ensures r.words == Tokenizer.Words(text)
    ensures |r.words| >= 1 && Tokenizer.Concat(r.words) == Tokenizer.LowerAll(Tokenizer.WordChars(text))
    ensures r.questionType == Unknown <==> forall c :: !PatternMatches(text, c)
    ensures r.questionType != Unknown ==> PatternMatches(text, r.questionType)
    ensures r.questionType != Unknown ==> forall c :: Rank(c) < Rank(r.questionType) ==> !PatternMatches(text, c)
  {
    Tokenizer.WordsKeepWordChars(text);
    Processed(Tokenizer.Words(text), Classify(text))
  }

  // ---------------------------------------------------------------------------
  // Properties

  /**
   The contract of `Classify` pins its result down: a category whose pattern
   matches while no earlier one does is the question type.
   */
  lemma ClassifyIsFirstMatch(q: string, c: Category)
    requires PatternMatches(q, c)
    requires forall d :: Rank(d) < Rank(c) ==> !PatternMatches(q, d)
    ensures Classify(q) == c
  {
    var r := Classify(q);
    assert r != Unknown;
    if Rank(r) < Rank(c) {
    } else if Rank(c) < Rank(r) {
    }
  }

  /** Patterns match without word boundaries, but a keyword needs every one of its letters. */
  lemma NoKeywordWithoutLetter(q: string, k: string, j: nat)
    requires j < |k| && 'a' <= k[j] <= 'z'
    requires k[j] !in q && (k[j] as int - 32) as char !in q
    ensures forall i: nat :: !KeywordAt(q, i, k)
  {
  }

  /** Every pattern needs a `\s` after its keyword, so a question without whitespace is `Unknown`. */
  lemma NoSpaceIsUnknown(q: string)
    requires forall j :: 0 <= j < |q| ==> !CharClass.IsSpace(q[j])
    ensures Classify(q) == Unknown
  {
  }

  /** Every wh-keyword holds a `w`, so a question without one is `YesNo` or `Unknown`. */
  lemma NoWIsYesNoOrUnknown(q: string)
    requires 'w' !in q && 'W' !in q
    ensures forall c :: Rank(c) < Rank(YesNo) ==> !PatternMatches(q, c)
    ensures Classify(q) == YesNo || Classify(q) == Unknown
  {
    NoKeywordWithoutLetter(q, "who", 0);
    NoKeywordWithoutLetter(q, "whom", 0);
    NoKeywordWithoutLetter(q, "what", 0);
    NoKeywordWithoutLetter(q, "where", 0);
    NoKeywordWithoutLetter(q, "when", 0);
    NoKeywordWithoutLetter(q, "why", 0);
    NoKeywordWithoutLetter(q, "how", 2);
  }

  /** A keyword of `c`'s pattern followed by whitespace makes the pattern match. */
  lemma KeywordThenSpace(q: string, c: Category, k: string, i: nat)
    requires c != Unknown && k in QuestionKeywords(c)
    requires KeywordAt(q, i, k) && i + |k| < |q| && CharClass.IsSpace(q[i + |k|])
    ensures PatternMatches(q, c)
  {
    assert SpacedKeywordAt(q, QuestionKeywords(c), i);
  }

  lemma WhatIsItMatchesWhat(q: string)
    requires q == "What is it"
    ensures PatternMatches(q, What)
  {
    assert KeywordAt(q, 0, "what");
    KeywordThenSpace(q, What, "what", 0);
  }

  /** "What is it" matches the `yes_no` pattern too ("is" followed by a space). */
  lemma WhatIsItMatchesYesNo(q: string)
    requires q == "What is it"
    ensures PatternMatches(q, YesNo)
  {
    assert KeywordAt(q, 5, "is");
    KeywordThenSpace(q, YesNo, "is", 5);
  }

  lemma WhatIsItHasNoO(q: string)
    requires q == "What is it"
    ensures 'o' !in q && 'O' !in q
  {
  }

  /** Declaration order breaks ties: "What is it" also matches `yes_no`, but `what` comes first. */
  lemma WhatIsItIsWhat(q: string)
    requires q == "What is it"
    ensures Classify(q) == What
  {
    WhatIsItMatchesWhat(q);
    WhatIsItHasNoO(q);
    NoKeywordWithoutLetter(q, "who", 2);
    NoKeywordWithoutLetter(q, "whom", 2);
    ClassifyIsFirstMatch(q, What);
  }

  /** A question word needs whitespace after it: "Who?" alone is `Unknown`. */
  lemma WhoAloneIsUnknown(q: string)
    requires q == "Who?"
    ensures Classify(q) == Unknown
  {
    NoSpaceIsUnknown(q);
  }

  lemma ThisCarMatchesYesNo(q: string)
    requires q == "this car"
    ensures PatternMatches(q, YesNo)
  {
    assert KeywordAt(q, 2, "is");
    KeywordThenSpace(q, YesNo, "is", 2);
  }

  lemma ThisCarHasNoW(q: string)
    requires q == "this car"
    ensures 'w' !in q && 'W' !in q
  {
  }

  /** There are no word boundaries: "this car" is `yes_no` because "is" ends "this". */
  lemma ThisCarIsYesNo(q: string)
    requires q == "this car"
    ensures Classify(q) == YesNo
  {
    ThisCarMatchesYesNo(q);
    ThisCarHasNoW(q);
    NoWIsYesNoOrUnknown(q);
    ClassifyIsFirstMatch(q, YesNo);
  }

  /** `who` comes first in declaration order: any question with "who" or "whom" followed by whitespace is `Who`. */
  lemma WhoWins(q: string, k: string, i: nat)
    requires k in QuestionKeywords(Who)
    requires KeywordAt(q, i, k) && i + |k| < |q| && CharClass.IsSpace(q[i + |k|])
    ensures Classify(q) == Who
  {
    KeywordThenSpace(q, Who, k, i);
    ClassifyIsFirstMatch(q, Who);
  }
}
