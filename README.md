# Citation resolver of the chat API

This project models the part of the textbook assistant's chat client that
turns retrieved documents into textbook citations (`src/api/chatbot.ts`).
When a request has retrieval-augmented generation (`useRag`) enabled and the
backend returns documents, each document whose `source` contains a chapter
file name `ch<digits>.pdf` becomes a markdown link
`[教材第<chapter>章第<page>页](textbook:<absolute page>)`. The absolute page is
the chapter's start page from `CHAPTER_PAGE_MAP` plus the page within the
chapter, minus one. A chapter missing from the table keeps its own page.
The links are joined with `、` and appended to the answer inside the fixed
sentence ` 您可以参考 … 获取更多信息。`.

The model has five modules:

- `Wrappers` (`wrappers.dfy`): the `Option` type used for JavaScript's `null`.
- `JsText` (`js_text.dfy`): the JavaScript string operations the resolver uses.
  - `parseInt(…, 10)` on a run of digits is `ParseDecimal`.
  - Template-literal rendering of numbers is `NatToString` and `IntToString`.
    `ReadInt` reads an integer's text back; it is the reference that
    `IntToString` is proved against.
  - `Array.prototype.join` with one separator character is `Join`.
  - `Split` is the inverse that the round-trip lemmas use.
- `JsArray` (`js_array.dfy`): `map` followed by `filter((ref) => ref !== null)` is `MapDefined`.
- `ChapterPattern` (`chapter_pattern.dfy`): the unanchored regular expression
  `/ch(\d+)\.pdf/` as JavaScript runs it. The start positions are tried from
  left to right, and the first position where the whole pattern matches wins.
  - `MatchesAt` states what a match means.
  - `Exec` is the matcher, proved leftmost and complete against `MatchesAt`.
- `Chatbot` (`chatbot.dfy`) holds the resolver itself:
  - the table;
  - the `|| 0` fallback;
  - the page offset;
  - the citation template;
  - the list of citations;
  - the reference sentence;
  - the `ChatResponse` object, whose `answer` field the method
    `GetChatResponse` extends in place.

The response is a class because the source updates `response.answer` in
place. Everything before that update is pure and is modelled as functions.
The chapter table is written as a function over its keys,
`StartPage`, and `ChapterPageMap` is the map with keys 1 to 16 built from it.
It holds the same sixteen entries as the object literal.

On the regular expression: a `ch` not followed by digits and `.pdf` does not
stop the search. `chch5.pdf` names chapter 5 (`IncompleteMatchSkipped`).
Only the first complete match counts, and its digits are read with leading
zeros ignored (`ch03.pdf` is chapter 3).

## Model

| member | source | states |
|---|---|---|
| ChapterPattern.MatchesAt | src/api/chatbot.ts:52 | the meaning of `/ch(\d+)\.pdf/` at a position: `ch`, then at least one ASCII digit, then `.pdf`; the matcher below is proved against it |
| ChapterPattern.DigitRun | src/api/chatbot.ts:52 | `\d+` is greedy: the run found from a position stays within the text, is all digits, and is followed by a non-digit or the end |
| ChapterPattern.GroupIsRun | src/api/chatbot.ts:52 | wherever the pattern matches, its digit group is exactly the maximal digit run after `ch`, since `.` is not a digit |
| ChapterPattern.TryAt | src/api/chatbot.ts:52 | one attempt of the matcher at a position succeeds with group length k exactly when the pattern matches there with k digits |
| ChapterPattern.FindFrom | src/api/chatbot.ts:52 | scanning from a position finds a match at or after it, with no match at any position in between, or reports none when no position from there on matches |
| ChapterPattern.Exec | src/api/chatbot.ts:52 | `source.match(...)` is null exactly when the pattern matches nowhere; otherwise it is a real match and no match starts earlier |
| ChapterPattern.GroupDetermined | src/api/chatbot.ts:52 | a match's start position fixes the length of its digit group |
| ChapterPattern.ChapterOf | src/api/chatbot.ts:52-54 | a chapter number is read exactly when the source matches somewhere |
| ChapterPattern.ChapterOfLeftmost | src/api/chatbot.ts:52-54 | the chapter is the decimal value of the digit group of the leftmost match |
| ChapterPattern.ChapterFile | src/api/chatbot.ts:21 | the mock backend's source name `ch${n}.pdf`; `ChapterFileRoundTrip` proves the resolver reads n back from it |
| ChapterPattern.ChapterFileRoundTrip | src/api/chatbot.ts:21 | the file name `ch${n}.pdf` made for chapter n is read back as chapter n |
| ChapterPattern.NoMatchWithoutC | src/api/chatbot.ts:52 | a source without the letter `c` never matches |
| ChapterPattern.LeadingZerosIgnored | src/api/chatbot.ts:54 | `ch03.pdf` is read as chapter 3 |
| ChapterPattern.IncompleteMatchSkipped | src/api/chatbot.ts:52 | in `chch5.pdf` the first `ch` is passed over and chapter 5 is read |
| JsText.ParseDecimal | src/api/chatbot.ts:54 | `parseInt(digits, 10)` of k digits is below 10^k |
| JsText.NatToString | src/api/chatbot.ts:57 | a chapter renders as a non-empty digit string with no leading zero, a single digit exactly below 10 |
| JsText.IntToString | src/api/chatbot.ts:57 | a page or target renders as a non-empty string of digits and minus signs that starts with `-` exactly when the number is negative |
| JsText.ReadRendered | src/api/chatbot.ts:57 | the text a page or target renders as reads back as that very number, so the text shows the value |
| JsText.ParseRendered | src/api/chatbot.ts:54-57 | parsing a rendered chapter number gives the number back |
| JsText.RenderParsed | src/api/chatbot.ts:54-57 | a digit string without leading zeros is rendered back unchanged after parsing |
| JsText.ParseZero | src/api/chatbot.ts:54 | digits that parse to zero are all `0` |
| JsText.Join | src/api/chatbot.ts:64 | `references.join('、')`; `SplitJoin` and `JoinSplit` prove `Split` undoes it |
| JsText.SplitJoin | src/api/chatbot.ts:64 | splitting `join('、')` of separator-free parts at the separator gives the parts back |
| JsText.JoinSplit | src/api/chatbot.ts:64 | joining the pieces of a split gives the text back |
| JsArray.MapDefined | src/api/chatbot.ts:50-61 | `map` then `filter(ref !== null)` keeps at most as many items as it was given, and none exactly when every item maps to null |
| JsArray.MapDefinedOrigin | src/api/chatbot.ts:50-61 | every kept item is the non-null image of some input item |
| JsArray.MapDefinedAppend | src/api/chatbot.ts:50-61 | mapping and filtering a concatenation is the concatenation of the results |
| JsArray.MapDefinedPosition | src/api/chatbot.ts:50-61 | a non-null item's image comes right after the images of the items before it |
| JsArray.MapDefinedSkip | src/api/chatbot.ts:59-61 | an item mapped to null can be removed without changing the result |
| JsArray.MapDefinedTotal | src/api/chatbot.ts:50-61 | when no item maps to null, the result has one image per item, position by position |
| Chatbot.StartPage | src/api/chatbot.ts:4-8 | the sixteen start pages of `CHAPTER_PAGE_MAP`, one per chapter; `ChapterPageMap` is the map with keys 1 to 16 built from them, and `ChapterPageMapShape` states its keys, positivity and order |
| Chatbot.ChapterPageMapShape | src/api/chatbot.ts:4-8 | the table's keys are exactly chapters 1 to 16, every start page is at least 11, and start pages increase strictly with the chapter |
| Chatbot.BasePage | src/api/chatbot.ts:55 | `CHAPTER_PAGE_MAP[chapter] \|\| 0` is non-zero exactly for chapters in the table, and then it is the table's entry |
| Chatbot.Resolve | src/api/chatbot.ts:52-56 | a link exists exactly when the source matches; it carries the chapter read from the source and the document's page; its target is start page + page - 1 for a chapter in the table and the page itself otherwise |
| Chatbot.ShownPageIsRelative | src/api/chatbot.ts:56-57 | for a chapter in the table the citation shows the document's own page, while the link goes at least ten pages further |
| Chatbot.Render | src/api/chatbot.ts:57 | the template `[教材第${chapter}章第${doc.page}页](textbook:${finalPage})`; `RenderInjective`, `ReadRendered` and `RenderAvoidsSeparator` state what the text shows |
| Chatbot.RenderInjective | src/api/chatbot.ts:57 | two links that render to the same text are the same link: chapter, shown page and target can all be read back from the citation |
| Chatbot.RenderAvoidsSeparator | src/api/chatbot.ts:57 | no rendered citation contains `、` |
| Chatbot.Citation | src/api/chatbot.ts:51-60 | a document yields a citation exactly when its source matches, and `null` otherwise |
| Chatbot.CitationDeterminesLink | src/api/chatbot.ts:52-57 | two documents cited with the same text resolve to the same link and show the same page |
| Chatbot.Citations | src/api/chatbot.ts:50-61 | there are no more citations than documents, and none exactly when no document's source matches |
| Chatbot.CitationsAvoidSeparator | src/api/chatbot.ts:50-64 | no citation in the list contains the join separator |
| Chatbot.CitationPosition | src/api/chatbot.ts:50-61 | each matching document contributes its own citation, placed right after the citations of the documents before it |
| Chatbot.UnmatchedContributesNothing | src/api/chatbot.ts:58-61 | dropping a non-matching document leaves the citations unchanged |
| Chatbot.CitationsAllMatching | src/api/chatbot.ts:50-61 | when every document matches there is one citation per document, in document order |
| Chatbot.ReferenceSentence | src/api/chatbot.ts:64 | the sentence ` 您可以参考 ${references.join('、')} 获取更多信息。`; `SentenceRecoversCitations` proves the citations can be read back from it |
| Chatbot.SentenceRecoversCitations | src/api/chatbot.ts:64 | the appended sentence starts with ` 您可以参考 ` and ends with ` 获取更多信息。`, and splitting its middle at `、` gives back exactly the citations |
| Chatbot.ChatResponse.constructor | src/api/chatbot.ts:31-35 | a response holds the thought, answer and documents it is built with |
| Chatbot.GetChatResponse | src/api/chatbot.ts:49-66 | thought and documents never change; the answer is unchanged when retrieval is off, there are no documents, or no document yields a citation; otherwise the answer is the old answer followed by the reference sentence of the citations |
| Chatbot.CitationOfMappedChapter | src/api/chatbot.ts:54-57 | a document of a chapter in the table is cited with its own page and a link to start page + page - 1 |
| Chatbot.CitationOfUnmappedChapter | src/api/chatbot.ts:55-57 | a document of a chapter outside the table (such as 0 or 17) is cited with a link to its own page |
| Chatbot.MockDocument | src/api/chatbot.ts:19-22 | a document the mock backend produces for a chapter and a page; `MockCitation` states how it is cited |
| Chatbot.MockCitation | src/api/chatbot.ts:19-22 | a mock backend document for a chapter from 1 to 16 is cited with its chapter's offset |
| Chatbot.CitationsOfPair | src/api/chatbot.ts:50-61 | two matching documents give their two citations in order |
| Chatbot.MockPairCited | src/api/chatbot.ts:17-28 | with retrieval on, the mock backend's two documents always give their two citations in order; the list is therefore non-empty, which is the case where `GetChatResponse` appends the sentence |
| Chatbot.ChapterThreePageFive | src/api/chatbot.ts:54-57 | `ch3.pdf` page 5 is cited as `[教材第3章第5页](textbook:55)` |
| Chatbot.RenderedChapterThree | src/api/chatbot.ts:57 | the template renders chapter 3, page 5, target 55 as `[教材第3章第5页](textbook:55)` |
| Chatbot.RenderedChapterSeventeen | src/api/chatbot.ts:57 | the template renders chapter 17, page 4, target 4 as `[教材第17章第4页](textbook:4)` |
| Chatbot.LeadingZeroChapter | src/api/chatbot.ts:52-57 | `ch03.pdf` page 5 is cited exactly like `ch3.pdf` page 5 |
| Chatbot.UnmappedChapter | src/api/chatbot.ts:55-57 | `ch17.pdf` page 4 links to page 4 |
| Chatbot.NoChapterFile | src/api/chatbot.ts:52-61 | `notes.pdf` yields no citation and no error |

## Left out

- The mock backend `MOCK_CHAT_API` (src/api/chatbot.ts:11-42) uses `setTimeout`, `Promise` and `Math.random`. The response it produces is an input of `GetChatResponse` instead. Its shape, two documents `ch<N>.pdf` with N from 1 to 16, appears only in the lemmas `MockCitation` and `MockPairCited`. Its `thought` and `answer` texts are not modelled.
- The `async`/`await` wrapper, the `console.log` calls and the commented-out HTTP request are scheduling and I/O, not logic, and are not modelled.
- `src/api/student.ts` is not part of this model. Its endpoints are timer-delayed stubs that return fixed values.
- The types imported from `../types` are not part of this model. `Document`, `ChatRequest` and `ChatResponse` hold only the fields the resolver uses.
- JavaScript numbers are doubles, but the model uses unbounded integers:
  - `JsText.ParseDecimal` and `JsText.NatToString` do not model the loss of precision above 2^53;
  - they also do not model the exponent notation that JavaScript uses for numbers of 10^21 and above. Such chapters cannot occur in practice.
- `Document.page` is an integer. The model does not cover a fractional or non-numeric page, or the string concatenation that `+` would perform on a string page.
- Strings are sequences of Unicode characters, not UTF-16 code units. The resolver's text is all in the Basic Multilingual Plane, so nothing it does depends on the difference.
- `Chatbot.GetChatResponse` models only the post-processing step. It takes the backend's response as given instead of awaiting it, and it does not return the response, which the caller already holds.
