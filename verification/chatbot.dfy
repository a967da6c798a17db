/**
 The first handler draft (`pages/api/chatbot.js`): classify the question,
 look the question type up in the extraction table, and answer with the
 excerpt, the no-content message, or, when the search result is empty, a
 100-character prefix of the document.
 */
module Chatbot {
  import opened Options
  import opened Regex
  import opened Classifier
  import opened CharClass

  /** The answer for a known question type whose extraction pattern finds nothing. */
  const NoContent: string := "No relevant content found."

  /** The default `contextSize` of `generateResponse` in this draft. */
  const ContextSize: nat := 100

  /**
   The `patterns` object of `searchContentByType`, keyed by question type.
   The `where` and `how` entries both search for "India".
   */
  const ExtractionPatterns: map<string, seq<string>> := map[
    "who" := ["who", "whom"],
    "what" := ["what"],
    "where" := ["india"],
    "when" := ["when"],
    "why" := ["why"],
    "how" := ["india"],
    "yes_no" := ["is", "are", "do", "does", "can", "will", "would", "should"]
  ]

  /** Every extraction pattern is made of keywords, none of which starts with an `n`. */
  lemma ExtractionKeywords()
    ensures forall key :: key in ExtractionPatterns ==> AllKeywords(ExtractionPatterns[key])
    ensures forall key :: key in ExtractionPatterns ==> StartsAwayFromNoContent(ExtractionPatterns[key])
  {
  }

  /** Exactly the known question types have an extraction pattern. */
  lemma KnownTypesHavePatterns(c: Category)
    ensures Name(c) in ExtractionPatterns <==> c != Unknown
  {
  }

  /** The extraction pattern of a known question type. */
  function PatternFor(c: Category): (kws: seq<string>)
    requires c != Unknown
    ensures Name(c) in ExtractionPatterns && kws == ExtractionPatterns[Name(c)]
    ensures AllKeywords(kws) && StartsAwayFromNoContent(kws)
  {
    KnownTypesHavePatterns(c);
    ExtractionKeywords();
    ExtractionPatterns[Name(c)]
  }

  /** A whole match starts with a keyword, so it is never the no-content message. */
  lemma MatchIsNotNoContent(s: string, kws: seq<string>, i: nat, stop: nat, end: nat)
    requires StartsAwayFromNoContent(kws)
    requires IsMatchAt(s, kws, i, stop, end)
    ensures i < end <= |s| && s[i..end] != NoContent
  {
    var k :| k in kws && KeywordMatchAt(s, k, i, stop, end);
    assert Lower(s[i]) == k[0];
    assert NoContent[0] == 'N';
  }

  /** The keywords of a pattern are non-empty and none starts with an `n`. */
  predicate StartsAwayFromNoContent(kws: seq<string>) {
    forall k :: k in kws ==> |k| > 0 && k[0] != 'n'
  }

  /**
   `relevantContent ? relevantContent[0] : "No relevant content found."` for an
   existing pattern: the whole leftmost match, or the message when there is none.
   */
  function FirstExcerpt(pdfText: string, kws: seq<string>): (r: string)
    requires StartsAwayFromNoContent(kws)
    ensures |r| > 0
    ensures r == NoContent <==> forall i: nat, stop: nat, end: nat :: !IsMatchAt(pdfText, kws, i, stop, end)
    ensures r != NoContent ==>
              exists i: nat, stop: nat, end: nat :: && IsMatchAt(pdfText, kws, i, stop, end)
                                          && i < end <= |pdfText| && r == pdfText[i..end]
                                          && forall j: nat, stop': nat, end': nat :: j < i ==> !IsMatchAt(pdfText, kws, j, stop', end')
  {
    match StringMatch(pdfText, Some(kws))
    case None => NoContent
    case Some(relevantContent) =>
      var sp := Search(pdfText, kws).value;
      MatchIsNotNoContent(pdfText, kws, sp.start, sp.stop, sp.end);
      relevantContent[0]
  }

  /**
   `searchContentByType`: for a question type with a pattern, its first
   excerpt; for any other type `match(undefined)` matches `""`, and that empty
   match is the result.
   */
  function SearchContentByType(pdfText: string, questionType: string): (r: string)
    ensures questionType !in ExtractionPatterns ==> r == ""
    ensures questionType in ExtractionPatterns ==> r == FirstExcerpt(pdfText, ExtractionPatterns[questionType])
  {
    match Lookup(ExtractionPatterns, questionType)
    case None => StringMatch(pdfText, None).value[0]
    case Some(kws) =>
      ExtractionKeywords();
      FirstExcerpt(pdfText, kws)
  }

  /** `generateResponse`, that is `text.slice(0, contextSize)`: the longest prefix of at most `contextSize` characters. */
  function GenerateResponse(text: string, contextSize: nat): (r: string)
    ensures |r| == if |text| < contextSize then |text| else contextSize
    ensures r <= text
  {
    if |text| < contextSize then text else text[..contextSize]
  }

  /**
   The pure part of the handler: `relevantContent || generateResponse(pdfText)`.
   An unknown question gets the 100-character prefix; a known one gets its
   leftmost excerpt, or the no-content message when there is none.
   */
  function Answer(question: string, pdfText: string): (r: string)
    ensures Classify(question) == Unknown ==> r == GenerateResponse(pdfText, ContextSize)
    ensures Classify(question) != Unknown ==> r == FirstExcerpt(pdfText, PatternFor(Classify(question)))
    ensures r == "" <==> Classify(question) == Unknown && pdfText == ""
  {
    var queryProcessed := Preprocess(question);
    KnownTypesHavePatterns(queryProcessed.questionType);
    var relevantContent := SearchContentByType(pdfText, Name(queryProcessed.questionType));
    if relevantContent != "" then relevantContent else GenerateResponse(pdfText, ContextSize)
  }

  // ---------------------------------------------------------------------------
  // Properties

  /** The answer is a piece of the document (an excerpt or a prefix) or the no-content message. */
  lemma AnswerIsExcerptOrMessage(question: string, pdfText: string)
    ensures var r := Answer(question, pdfText);
            r == NoContent || exists i, j :: 0 <= i <= j <= |pdfText| && r == pdfText[i..j]
  {
    var r := Answer(question, pdfText);
    if Classify(question) == Unknown {
      assert r == pdfText[0..|r|];
    }
  }

  /** `where` and `how` questions get the same answer, since both patterns search for "India". */
  lemma WhereAndHowAnswerAlike(q1: string, q2: string, pdfText: string)
    requires Classify(q1) == Where && Classify(q2) == How
    ensures Answer(q1, pdfText) == Answer(q2, pdfText)
  {
    WhereAndHowSearchIndia();
  }

  lemma WhereAndHowSearchIndia()
    ensures PatternFor(Where) == PatternFor(How) == ["india"]
  {
  }

  /** The excerpt is the match with nothing to its left, from its keyword through its line break. */
  lemma FirstExcerptIsLeftmostMatch(pdfText: string, kws: seq<string>, i: nat, stop: nat, end: nat)
    requires AllKeywords(kws) && StartsAwayFromNoContent(kws)
    requires IsMatchAt(pdfText, kws, i, stop, end)
    requires forall j: nat, stop': nat, end': nat :: j < i ==> !IsMatchAt(pdfText, kws, j, stop', end')
    ensures FirstExcerpt(pdfText, kws) == pdfText[i..end]
  {
    LeftmostMatchIsFound(pdfText, kws, i, stop, end);
  }

  /** No match starts before `n` when no character there folds to the first letter of a keyword. */
  lemma NoMatchBefore(s: string, kws: seq<string>, n: nat)
    requires forall k :: k in kws ==> |k| > 0
    requires forall j, k :: 0 <= j < n && j < |s| && k in kws ==> Lower(s[j]) != k[0]
    ensures forall j: nat, stop: nat, end: nat :: j < n ==> !IsMatchAt(s, kws, j, stop, end)
  {
    forall j: nat, stop: nat, end: nat | j < n ensures !IsMatchAt(s, kws, j, stop, end) {
      if IsMatchAt(s, kws, j, stop, end) {
        var k :| k in kws && KeywordMatchAt(s, k, j, stop, end);
        FirstLetterFolds(s, j, k);
      }
    }
  }

  lemma YesNoPattern()
    ensures PatternFor(YesNo) == ["is", "are", "do", "does", "can", "will", "would", "should"]
  {
  }

  /** The `yes_no` extraction keywords match inside words: in "this" the excerpt is "is". */
  lemma YesNoExcerptInsideWord(s: string)
    requires s == "this"
    ensures FirstExcerpt(s, PatternFor(YesNo)) == "is"
  {
    assert s[2..4] == "is";
    YesNoPattern();
    var kws := PatternFor(YesNo);
    YesNoMatchesThis(s, kws);
    FirstExcerptIsLeftmostMatch(s, kws, 2, 4, 4);
  }

  lemma YesNoMatchesThis(s: string, kws: seq<string>)
    requires s == "this" && kws == ["is", "are", "do", "does", "can", "will", "would", "should"]
    ensures IsMatchAt(s, kws, 2, 4, 4)
    ensures forall j: nat, stop: nat, end: nat :: j < 2 ==> !IsMatchAt(s, kws, j, stop, end)
  {
    assert KeywordMatchAt(s, "is", 2, 4, 4);
    NoMatchBefore(s, kws, 2);
  }

  lemma WhoPattern()
    ensures PatternFor(Who) == ["who", "whom"]
  {
  }

  /**
   A `who` question over a document in which "who" first occurs (with no "w"
   anywhere before it) on a line that ends in a blank line is answered with
   the text from that "who" to the end of its line, followed by the blank
   line's two newlines. When `intro` is empty or ends with a line
   terminator, that is the whole line.
   */
  lemma WhoQuestionGetsItsLine(question: string, intro: string, line: string, rest: string)
    requires Classify(question) == Who
    requires forall j :: 0 <= j < |intro| ==> Lower(intro[j]) != 'w'
    requires KeywordAt(line, 0, "who")
    requires NoTerminator(line, 0, |line|)
    ensures Answer(question, intro + line + "\n\n" + rest) == line + "\n\n"
  {
    var doc := intro + line + "\n\n" + rest;
    WhoPattern();
    WhoLineExcerpt(doc, intro, line, rest);
  }

  lemma WhoLineExcerpt(doc: string, intro: string, line: string, rest: string)
    requires doc == intro + line + "\n\n" + rest
    requires forall j :: 0 <= j < |intro| ==> Lower(intro[j]) != 'w'
    requires KeywordAt(line, 0, "who")
    requires NoTerminator(line, 0, |line|)
    ensures FirstExcerpt(doc, ["who", "whom"]) == line + "\n\n"
  {
    var n, m := |intro|, |intro| + |line|;
    var kws := ["who", "whom"];
    LineDocument(doc, intro, line, rest);
    assert KeywordMatchAt(doc, "who", n, m, m + 2);
    assert IsMatchAt(doc, kws, n, m, m + 2);
    NoMatchBefore(doc, kws, n);
    FirstExcerptIsLeftmostMatch(doc, kws, n, m, m + 2);
  }

  /** Where the pieces of `intro + line + "\n\n" + rest` sit. */
  lemma LineDocument(doc: string, intro: string, line: string, rest: string)
    requires doc == intro + line + "\n\n" + rest
    requires forall j :: 0 <= j < |intro| ==> Lower(intro[j]) != 'w'
    requires KeywordAt(line, 0, "who")
    requires NoTerminator(line, 0, |line|)
    ensures var n, m := |intro|, |intro| + |line|;
      && doc[n..m + 2] == line + "\n\n"
      && KeywordAt(doc, n, "who")
      && TailMatch(doc, n + 3, m, m + 2)
      && forall j :: 0 <= j < n ==> Lower(doc[j]) != 'w'
  {
    var n, m := |intro|, |intro| + |line|;
    assert forall j :: 0 <= j < n ==> doc[j] == intro[j];
    assert forall j :: n <= j < m ==> doc[j] == line[j - n];
    assert doc[m] == '\n' && doc[m + 1] == '\n';
    assert doc[n..m + 2] == line + "\n\n";
  }

  lemma NoTerminatorConcat(a: string, b: string)
    requires NoTerminator(a, 0, |a|) && NoTerminator(b, 0, |b|)
    ensures NoTerminator(a + b, 0, |a + b|)
  {
    forall j | 0 <= j < |a + b| ensures !IsLineTerminator((a + b)[j]) {
      if j < |a| {
        assert (a + b)[j] == a[j];
      } else {
        assert (a + b)[j] == b[j - |a|];
      }
    }
  }

  lemma QuestionPartHasNoTerminator(a: string)
    requires a == "Who is the president? "
    ensures NoTerminator(a, 0, |a|) && KeywordAt(a, 0, "who")
  {
  }

  lemma StatementPartHasNoTerminator(b: string)
    requires b == "The president is elected every five years."
    ensures NoTerminator(b, 0, |b|)
  {
  }

  lemma IntroHasNoW(intro: string)
    requires intro == "Intro.\n\n"
    ensures forall j :: 0 <= j < |intro| ==> Lower(intro[j]) != 'w'
  {
  }

  lemma PresidentQuestion(question: string)
    requires question == "Who is the president?"
    ensures Classify(question) == Who
  {
    assert KeywordAt(question, 0, "who");
    WhoWins(question, "who", 0);
  }

  /**
   The question "Who is the president?" against a short document: the answer
   is the line that holds "Who", together with the two newlines of the blank
   line after it.
   */
  lemma PresidentScenario(question: string, a: string, b: string)
    requires question == "Who is the president?"
    requires a == "Who is the president? " && b == "The president is elected every five years."
    ensures Answer(question, "Intro.\n\n" + (a + b) + "\n\n" + "Next section.") == a + b + "\n\n"
  {
    PresidentQuestion(question);
    QuestionPartHasNoTerminator(a);
    StatementPartHasNoTerminator(b);
    NoTerminatorConcat(a, b);
    assert KeywordAt(a + b, 0, "who") by {
      assert forall j :: 0 <= j < |a| ==> (a + b)[j] == a[j];
    }
    IntroHasNoW("Intro.\n\n");
    WhoQuestionGetsItsLine(question, "Intro.\n\n", a + b, "Next section.");
  }
}
