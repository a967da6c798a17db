# ChatbotSimple question answering, in Dafny

ChatbotSimple answers a question about a PDF document with two Next.js API
handlers. Both handlers share the same first step, `preprocessText`: it
classifies the question by testing seven case-insensitive patterns ("a
keyword followed by whitespace") in declaration order, and it splits the
question into lower-case words. The handlers differ after that.

- **`pages/api/chatbot.js`** looks the question type up in a table of
  extraction patterns: a keyword, then the rest of its line, then `\n\n`,
  `\n` or the end of the text. It answers with the first such excerpt of the
  document, or with "No relevant content found.". For an `unknown` question
  it answers with the first 100 characters of the document.
- **`pages/api/chatbotcop.js`** is a second draft. It keys the same kind of
  table by the word list rather than the question type, then reads entry 5 of
  a match array that has one or two entries. So every answer it gives is either the
  no-content message or the first 200 characters of the document.

The document text is a parameter. Strings are sequences of Unicode scalar
values.

The modules follow the program's structure:

- `Options`: an option type and map lookup.
- `CharClass`: the ECMAScript character classes `\s` and `\w`, line
  terminators, and ASCII lower-casing.
- `Regex`: the two regular-expression shapes the program uses.
  - The classification test `/(?:k1|k2|…)\s+/i`.
  - The extraction search `/(?:k1|…).*?(\n\n|\n|$)/i`, with its leftmost-first,
    lazy semantics.
  - `String.prototype.match`, including the `undefined`-pattern case.
- `Tokenizer`: `replace(/[^\w\s]/g, "")`, `toLowerCase`, `split(/\s+/)` and
  `join`.
- `Classifier`: the question categories and `preprocessText`. Both drafts
  define the same `questionPatterns` and `preprocessText`
  (`pages/api/chatbotcop.js:13-43` repeats `pages/api/chatbot.js:13-43`), so
  both drafts use this one module.
- `Chatbot`: the first draft's search, prefix fallback and answer.
- `ChatbotCop`: the second draft's words-keyed search and answer.

The JavaScript semantics are modelled as the code has them:

- The `/i` flag is modelled as ASCII lower-casing. This is exact for these
  patterns: every keyword is ASCII, and without the `u` flag ECMAScript never
  folds a non-ASCII character onto an ASCII one.
- `\s` is the full ECMAScript set: ASCII whitespace, U+00A0, U+FEFF, the
  Unicode space separators, and the line terminators.
- `\w` is `[A-Za-z0-9_]`.
- `.` refuses all four line terminators: `\n`, `\r`, U+2028 and U+2029. When
  the first terminator after a keyword is `\r`, U+2028 or U+2029, the match
  at that keyword fails, and the search moves on to a later keyword.
- `str.match(undefined)` behaves as a match of the empty pattern and returns
  `[""]`.
- A successful non-global match returns `[whole, group]`.
- An array used as a property key becomes `words.join(",")`.

Two behaviours of the code are easy to misread, and the model follows the code:

- For a known question type whose pattern finds nothing, the answer is the
  literal "No relevant content found.", not a piece of the document. That
  string is truthy, so the prefix fallback never applies to a known type.
- The excerpt includes the terminating `\n\n` or `\n`.

## Model

| member | source | states |
|---|---|---|
| Regex.Test | pages/api/chatbot.js:14-20 | A classification pattern matches exactly when one of its keywords occurs somewhere in the question, with no word boundary and in any letter case, immediately followed by a whitespace character. |
| Classifier.Matches | pages/api/chatbot.js:33 | One iteration's `pattern.test(text)` is true exactly when that category's pattern matches the question. `unknown` has no pattern. |
| Regex.TestFrom | pages/api/chatbot.js:33 | `test` scans every start position. It reports a match exactly when one exists at or after the given position. |
| Classifier.FirstMatching | pages/api/chatbot.js:32-36 | The `for … of` loop with `break` stops at the first entry whose pattern matches. It runs to the end only when no entry's pattern matches. |
| Classifier.Classify | pages/api/chatbot.js:31-37 | The question type is `unknown` exactly when no pattern matches. Otherwise its pattern matches and no pattern declared before it matches. |
| Classifier.ClassifyIsFirstMatch | pages/api/chatbot.js:31-37 | Conversely, any category whose pattern matches while no earlier one does is the question type. |
| Classifier.WhatIsItIsWhat | pages/api/chatbot.js:15-20 | "What is it" is classified `what`, although the `yes_no` pattern matches it too. |
| Classifier.WhatIsItMatchesYesNo | pages/api/chatbot.js:20 | The `yes_no` pattern matches "What is it", because "is" is followed by a space. |
| Classifier.WhoAloneIsUnknown | pages/api/chatbot.js:14 | "Who?" is `unknown`: no keyword in it is followed by whitespace. |
| Classifier.ThisCarIsYesNo | pages/api/chatbot.js:20 | "this car" is `yes_no`: the "is" at the end of "this" is followed by a space. |
| Classifier.NoSpaceIsUnknown | pages/api/chatbot.js:14-20 | A question with no whitespace character is `unknown`. |
| Classifier.NoWIsYesNoOrUnknown | pages/api/chatbot.js:14-20 | A question with no `w` or `W` cannot match any wh-pattern, so it is `yes_no` or `unknown`. |
| Classifier.WhoWins | pages/api/chatbot.js:14 | A question holding "who" or "whom", in any case and followed by whitespace, is `who`, whatever else it contains. |
| Classifier.Preprocess | pages/api/chatbot.js:24-42 | The word list is the tokenizer's list, so the cut lemmas for `Words` apply to it. It has at least one entry. Put back together, its entries spell the question's word characters, lower-cased and in order. The question type is `unknown` exactly when no pattern matches. Otherwise its pattern matches and no pattern declared before it matches. |
| Tokenizer.StripPunctuation | pages/api/chatbot.js:26 | Every character that is neither a word nor a whitespace character is removed, and every other character is kept. |
| Tokenizer.StripPunctuationAppend | pages/api/chatbot.js:26 | Removing punctuation works piece by piece: the result for `a + b` is the result for `a` followed by the result for `b`. |
| Tokenizer.StripPunctuationOne | pages/api/chatbot.js:26 | A single word or whitespace character is kept, and any other single character is dropped. Together with the previous row, this fixes the result on every input. |
| Tokenizer.LowerAll | pages/api/chatbot.js:27 | Lower-casing keeps the length and maps each character through ASCII lower-casing. On the characters left after removing punctuation, this is what `toLowerCase` does. |
| Tokenizer.StripPunctuationIdempotent | pages/api/chatbot.js:26 | Removing punctuation a second time changes nothing. |
| Tokenizer.Split | pages/api/chatbot.js:28 | Splitting on whitespace runs yields at least one piece. No piece holds whitespace, and every piece's characters come from the input. |
| Tokenizer.SplitOfWord | pages/api/chatbot.js:28 | A string with no whitespace splits into one piece, itself. |
| Tokenizer.SplitAcrossRun | pages/api/chatbot.js:28 | A space-free piece, then a non-empty run of whitespace, then a rest that does not start with whitespace, splits into that piece followed by the pieces of the rest. The whole run is one cut. Leading whitespace gives an empty first piece, and trailing whitespace an empty last one. |
| Tokenizer.SplitKeepsNonSpace | pages/api/chatbot.js:28 | Put back together, the pieces are exactly the input's non-whitespace characters, in order. |
| Tokenizer.SplitJoinRoundTrip | pages/api/chatbot.js:28 | Joining non-empty, whitespace-free words with a space and splitting the result gives back the same words. |
| Tokenizer.Words | pages/api/chatbot.js:25-28 | The word list is non-empty, and every word character is one of `[a-z0-9_]`. |
| Tokenizer.WordsOfWord | pages/api/chatbot.js:25-28 | A run of word characters gives one word, lower-cased. |
| Tokenizer.WordsOfEmpty | pages/api/chatbot.js:25-28 | The empty question gives one empty word. |
| Tokenizer.WordsAcrossRun | pages/api/chatbot.js:25-28 | Word characters, then a non-empty run of whitespace, then a rest that starts with a word character or is empty, give the lower-cased first word followed by the words of the rest. A trailing space therefore leaves an empty last word. |
| Tokenizer.WordsKeepWordChars | pages/api/chatbot.js:25-28 | The word list loses only punctuation and whitespace. Its words, put back together, are the question's `\w` characters, lower-cased and in order. |
| Tokenizer.Join | pages/api/chatbotcop.js:59 | The array-to-key conversion: an empty list gives `""`, a one-word list gives that word, and any longer list gives a key that starts with its first word. |
| Tokenizer.JoinAppend | pages/api/chatbotcop.js:59 | Joining works left to right: appending a word to a non-empty list appends the separator and then the word to the key. Together with the one-word case, this fixes the key for every list. |
| Tokenizer.JoinShowsSeparator | pages/api/chatbotcop.js:59 | Joining two or more pieces puts the separator into the result. |
| Regex.LazyTail | pages/api/chatbot.js:48 | The lazy tail (`.*?`, then `\n\n`, `\n` or end of text) stops at the first line terminator or at the end of the text. Its group is `\n\n` or `\n` at a newline. It fails exactly when the first terminator is `\r`, U+2028 or U+2029. |
| Regex.MatchAt | pages/api/chatbot.js:48-54 | Trying the alternatives at one position finds a match exactly when some keyword occurs there and is followed by a successful tail. |
| Regex.SearchFrom | pages/api/chatbot.js:56 | The engine's scan over start positions from a given index: the match it returns has no match between that index and its start, and it returns nothing only when no start position from there matches. |
| Regex.Search | pages/api/chatbot.js:56 | The search returns a match with no match to its left, or nothing when the pattern matches nowhere. |
| Regex.StringMatch | pages/api/chatbot.js:56 | `match` without a pattern gives `[""]`. With a pattern, it gives `null` exactly when the pattern matches nowhere. Otherwise it gives exactly two entries: the whole leftmost match, then its capture group. |
| Regex.TailNeverFails | pages/api/chatbot.js:48-54 | When `\n` is the only line terminator in the text, the tail after a keyword always succeeds. |
| Regex.MatchStartsAtFirstKeyword | pages/api/chatbot.js:48-56 | When `\n` is the only line terminator, the search succeeds exactly when a keyword occurs, and the match starts at the first occurrence. |
| Regex.ExcerptShape | pages/api/chatbot.js:48-57 | The excerpt starts with a keyword and has no line terminator before its group. It ends with `\n\n` when the first newline is followed by another, with `\n` at a lone newline, and at the end of the text otherwise. |
| Regex.MatchAtUnique | pages/api/chatbot.js:48-54 | All matches at one start position end at the same place, whichever alternative they use. |
| Regex.LeftmostMatchIsFound | pages/api/chatbot.js:56 | A match with no match to its left is exactly the one the search returns. |
| Chatbot.PatternFor | pages/api/chatbot.js:47-55 | Every known question type has an extraction pattern made of keywords. |
| Chatbot.FirstExcerpt | pages/api/chatbot.js:56-57 | The result is never empty. It is the no-content message exactly when the pattern matches nowhere; otherwise it is the document slice from the leftmost match's start to its end. |
| Chatbot.SearchContentByType | pages/api/chatbot.js:46-58 | A question type outside the table gives `""`, because `match(undefined)` matches the empty string. A type in the table gives the first excerpt of its pattern. |
| Chatbot.GenerateResponse | pages/api/chatbot.js:61-65 | The result is a prefix of the text, and its length is the smaller of the text length and the context size. |
| Chatbot.Answer | pages/api/chatbot.js:74-83 | An `unknown` question is answered with the 100-character prefix. A known question is answered with its pattern's first excerpt or the no-content message. The answer is empty exactly when the question is `unknown` and the document is empty. |
| Chatbot.AnswerIsExcerptOrMessage | pages/api/chatbot.js:74-83 | Every answer is a contiguous piece of the document or the no-content message. |
| Chatbot.MatchIsNotNoContent | pages/api/chatbot.js:57 | An excerpt is never empty and is never the no-content message. |
| Chatbot.FirstExcerptIsLeftmostMatch | pages/api/chatbot.js:56-57 | A match with no match to its left is the excerpt returned. |
| Chatbot.WhereAndHowAnswerAlike | pages/api/chatbot.js:50-53 | `where` and `how` questions get the same answer over any document, since both search for "India". |
| Chatbot.YesNoExcerptInsideWord | pages/api/chatbot.js:54 | The `yes_no` search has no word boundary: in "this" it finds "is". |
| Chatbot.WhoQuestionGetsItsLine | pages/api/chatbot.js:48 | For a `who` question, suppose "who" occurs with no `w` anywhere before it, and its line ends in a blank line. Then the answer runs from that "who" to the end of its line, followed by the two newlines. It is the whole line when the text before the "who" is empty or ends with a line terminator. |
| Chatbot.PresidentScenario | pages/api/chatbot.js:74-83 | "Who is the president?" asked of a short document is answered with the line that starts with "Who", followed by `\n\n`. |
| ChatbotCop.Element | pages/api/chatbotcop.js:64 | Indexing an array gives `undefined` exactly past its end. |
| ChatbotCop.PatternForWords | pages/api/chatbotcop.js:59 | `patterns[words]` finds a pattern exactly when the comma-joined words are a table key, and then it is that key's pattern. |
| ChatbotCop.SearchContentByWords | pages/api/chatbotcop.js:46-65 | The search returns `undefined` or the no-content message, never an excerpt. It returns the message exactly when the joined words are a table key whose pattern matches nowhere. |
| ChatbotCop.SelectedOnlyBySingleWord | pages/api/chatbotcop.js:48-59 | A pattern is selected exactly when the question gives a single word in {who, what, when, why, how, yes_no}, so the key "India" is never selected. |
| ChatbotCop.Answer | pages/api/chatbotcop.js:77-85 | Every answer is the no-content message or the 200-character prefix of the document. It is the message exactly when a selected pattern finds nothing. |
| ChatbotCop.TrailingSpaceSelectsNothing | pages/api/chatbotcop.js:59 | "who " gives the words `["who", ""]`, so the key is "who," and no pattern is selected. |
| ChatbotCop.AnswerIgnoresQuestionType | pages/api/chatbotcop.js:77-82 | Two questions with the same word list get the same answer: the question type plays no part. |

## Left out

- `getPdfContent` (`fs.readFile` and `pdf-parse`): file I/O and a foreign library. The document text is a parameter instead.
- The `req`/`res` plumbing: the POST check, the 200, 405 and 500 responses, the `try`/`catch` and `console.log`. Only the pure composition from question and document to answer is modelled.
- `components/Chatbot.js`, the React front end (state, `fetch`, toasts, scrolling) is not part of this model.
- JavaScript strings are UTF-16. Here lengths and `slice` count Unicode scalar values, so the 100- and 200-character prefixes differ from the source for text outside the Basic Multilingual Plane.
- `\s` follows the space separators of Unicode 15. An engine built on another Unicode version may differ for newly added space characters.
- ChatbotCop.SearchContentByWords: a word list that joins to an inherited `Object.prototype` property name (such as `constructor`) is treated as a missing key. In JavaScript that lookup yields a function (for `constructor`) or `Object.prototype` itself (for `__proto__`, which `\w` keeps), and `match` builds a regular expression from its string form.
- A general regular-expression engine: only the two pattern shapes the program uses are modelled.
