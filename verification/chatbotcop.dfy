/**
 The second handler draft (`pages/api/chatbotcop.js`). It classifies the
 question like the first draft but then ignores the question type: the word
 list, converted to a property key, selects the extraction pattern, and the
 search returns `matches[5]` of a match array with one or two entries. Every answer is
 therefore either the no-content message or a 200-character prefix of the
 document.
 */
module ChatbotCop {
  import opened Options
  import opened Regex
  import opened Tokenizer
  import opened Classifier
  import Chatbot

  /** The JavaScript values `searchContentByType` can return in this draft. */
  datatype JsValue = Undefined | Str(value: string)

  /** JavaScript truthiness of a string-or-undefined value. */
  predicate Truthy(v: JsValue) {
    v.Str? && |v.value| > 0
  }

  /** The default `contextSize` of `generateResponse` in this draft. */
  const ContextSize: nat := 200

  /**
   The `patterns` object of this draft: keyed by question word, except that the
   where-pattern sits under the key "India".
   */
  const WordPatterns: map<string, seq<string>> := map[
    "who" := ["who", "whom"],
    "what" := ["what"],
    "India" := ["where"],
    "when" := ["when"],
    "why" := ["why"],
    "how" := ["how"],
    "yes_no" := ["is", "are", "do", "does", "can", "will", "would", "should"]
  ]

  /** The keys of `WordPatterns` hold no comma. */
  lemma KeysHaveNoComma()
    ensures forall key :: key in WordPatterns ==> ',' !in key
  {
  }

  /** `array[n]`: the element at `n`, or `undefined` past the end. */
  function Element(arr: seq<string>, n: nat): (r: JsValue)
    ensures r.Str? <==> n < |arr|
    ensures r.Str? ==> r.value == arr[n]
  {
    if n < |arr| then Str(arr[n]) else Undefined
  }

  /** `patterns[words]`: an array used as a property key is converted to `words.join(",")`. */
  function PatternForWords(words: seq<string>): (r: Option<seq<string>>)
    ensures r.Some? <==> Join(words, ",") in WordPatterns
    ensures r.Some? ==> r.value == WordPatterns[Join(words, ",")]
  {
    Lookup(WordPatterns, Join(words, ","))
  }

  /**
   `searchContentByType(pdfText, words)`: `matches[5]` of the match array, or
   the no-content message when a selected pattern does not match. No match
   array has six entries, so the search never returns an excerpt.
   */
  function SearchContentByWords(pdfText: string, words: seq<string>): (r: JsValue)
    ensures r == Undefined || r == Str(Chatbot.NoContent)
    ensures r == Str(Chatbot.NoContent) <==>
              && Join(words, ",") in WordPatterns
              && forall i: nat, stop: nat, end: nat :: !IsMatchAt(pdfText, WordPatterns[Join(words, ",")], i, stop, end)
  {
    var matches := StringMatch(pdfText, PatternForWords(words));
    if matches.None? then Str(Chatbot.NoContent)
    else Element(matches.value, 5)
  }

  /**
   The pure part of the handler: `relevantContent || generateResponse(pdfText)`
   with the word list as the search key.
   */
  function Answer(question: string, pdfText: string): (r: string)
    ensures r == Chatbot.NoContent || r == Chatbot.GenerateResponse(pdfText, ContextSize)
    ensures var key := Join(Words(question), ",");
            if key in WordPatterns && forall i: nat, stop: nat, end: nat :: !IsMatchAt(pdfText, WordPatterns[key], i, stop, end)
            then r == Chatbot.NoContent
            else r == Chatbot.GenerateResponse(pdfText, ContextSize)
  {
    var queryProcessed := Preprocess(question);
    var relevantContent := SearchContentByWords(pdfText, queryProcessed.words);
    if Truthy(relevantContent) then relevantContent.value
    else Chatbot.GenerateResponse(pdfText, ContextSize)
  }

  // ---------------------------------------------------------------------------
  // Properties

  /**
   A pattern is selected only for a question that tokenises to a single word,
   and that word is one of the lower-case keys: `India` is never selected.
   */
  lemma SelectedOnlyBySingleWord(question: string)
    ensures var words := Words(question);
            Join(words, ",") in WordPatterns <==>
              |words| == 1 && words[0] in {"who", "what", "when", "why", "how", "yes_no"}
  {
    var words := Words(question);
    KeysHaveNoComma();
    if |words| >= 2 {
      JoinShowsSeparator(words, ",");
    } else {
      assert Join(words, ",") == words[0];
    }
  }

  /** The answer depends on the question only through its word list; the question type is ignored. */
  lemma AnswerIgnoresQuestionType(q1: string, q2: string, pdfText: string)
    requires Words(q1) == Words(q2)
    ensures Answer(q1, pdfText) == Answer(q2, pdfText)
  {
  }

  /**
   A trailing space leaves an empty last word, so "who " gives the key "who,"
   and selects no pattern.
   */
  lemma TrailingSpaceSelectsNothing(question: string)
    requires question == "who "
    ensures Words(question) == ["who", ""]
    ensures Join(Words(question), ",") !in WordPatterns
  {
    assert question == "who" + " " + "";
    WordsAcrossRun("who", " ", "");
    WordsOfEmpty();
    assert LowerAll("who") == "who";
    SelectedOnlyBySingleWord(question);
  }
}
