/**
 * The citation resolver of the chat API: after the chat backend has answered
 * a request made with retrieval enabled, every retrieved document whose
 * source is a chapter file "ch<n>.pdf" becomes a markdown link
 * "[教材第<n>章第<page>页](textbook:<absolute page>)", and the links are
 * appended to the answer in one fixed sentence.
 */
module Chatbot {
  import opened Wrappers
  import opened JsText
  import opened ChapterPattern
  import opened JsArray

  /** A retrieved document: the file it comes from, the page within that file's chapter, and an excerpt. */
  datatype Document = Document(source: string, page: int, content: string)

  /** What the client sends: the user's message and whether retrieval is enabled. */
  datatype ChatRequest = ChatRequest(userInput: string, useRag: bool)

  /** The first page, in the whole textbook, of each chapter the table lists. */
  function StartPage(chapter: int): (page: int)
    requires 1 <= chapter <= 16
  {
    match chapter
    case 1 => 11    case 2 => 34    case 3 => 51    case 4 => 80
    case 5 => 111   case 6 => 134   case 7 => 155   case 8 => 173
    case 9 => 195   case 10 => 209  case 11 => 227  case 12 => 244
    case 13 => 254  case 14 => 274  case 15 => 294  case 16 => 312
  }

  /** The chapter-to-start-page table: chapters 1 to 16, each with its start page. */
  const ChapterPageMap: map<int, int> := map c: int | 1 <= c <= 16 :: StartPage(c)

  /** The table covers chapters 1 to 16 exactly, and chapters start on strictly increasing pages. */
  lemma ChapterPageMapShape()
    ensures forall c :: c in ChapterPageMap <==> 1 <= c <= 16
    ensures forall c :: c in ChapterPageMap ==> ChapterPageMap[c] >= 11
    ensures forall c, d :: c in ChapterPageMap && d in ChapterPageMap && c < d ==>
              ChapterPageMap[c] < ChapterPageMap[d]
  {
  }

  /**
   * `CHAPTER_PAGE_MAP[chapter] || 0`: a missing entry reads as undefined and
   * both undefined and 0 fall back to 0. Because every start page is
   * positive, the fallback fires for exactly the chapters outside the table.
   */
  function BasePage(chapter: nat): (b: int)
    ensures b != 0 <==> chapter in ChapterPageMap
    ensures chapter in ChapterPageMap ==> b == ChapterPageMap[chapter]
  {
    var entry := if chapter in ChapterPageMap then Some(ChapterPageMap[chapter]) else None;
    if entry.Some? && entry.value != 0 then entry.value else 0
  }

  /** The three numbers a citation shows: chapter, page within the chapter, and the page it links to. */
  datatype Link = Link(chapter: nat, page: int, target: int)

  /**
   * The body of the `map` callback up to the template: match the source,
   * read the chapter, and offset the page by the chapter's start page, or
   * keep the page as it is when the chapter is not in the table.
   */
  function Resolve(doc: Document): (r: Option<Link>)
    ensures r.None? <==> !MatchesSomewhere(doc.source)
    ensures r.Some? ==> ChapterOf(doc.source) == Some(r.value.chapter) && r.value.page == doc.page
    ensures r.Some? && r.value.chapter in ChapterPageMap ==>
              r.value.target == ChapterPageMap[r.value.chapter] + doc.page - 1
    ensures r.Some? && r.value.chapter !in ChapterPageMap ==> r.value.target == doc.page
  {
    match ChapterOf(doc.source)
    case None => None
    case Some(chapter) =>
      var basePage := BasePage(chapter);
      var finalPage := if basePage != 0 then basePage + doc.page - 1 else doc.page;
      Some(Link(chapter, doc.page, finalPage))
  }

  /**
   * For a chapter in the table the text shows the page within the chapter
   * while the link goes to the absolute page, which is at least ten pages on.
   */
  lemma ShownPageIsRelative(doc: Document)
    requires Resolve(doc).Some? && Resolve(doc).value.chapter in ChapterPageMap
    ensures Resolve(doc).value.page == doc.page
    ensures Resolve(doc).value.target - Resolve(doc).value.page >= 10
  {
  }

  const Separator: char := '、'
  const Lead: string := " 您可以参考 "
  const Tail: string := " 获取更多信息。"

  /** The template `[教材第${chapter}章第${doc.page}页](textbook:${finalPage})`. */
  function Render(link: Link): string
  {
    "[教材第" + (NatToString(link.chapter) + ("章第" + (IntToString(link.page) + ("页](textbook:" + (IntToString(link.target) + ")")))))
  }

  /**
   * The citation text determines its link: chapter, shown page and target can
   * be read back from it, because each number is followed by fixed text that
   * starts with neither a digit nor a minus sign.
   */
  lemma RenderInjective(l1: Link, l2: Link)
    requires Render(l1) == Render(l2)
    ensures l1 == l2
  {
    var c1, c2 := NatToString(l1.chapter), NatToString(l2.chapter);
    var p1, p2 := IntToString(l1.page), IntToString(l2.page);
    var t1, t2 := IntToString(l1.target), IntToString(l2.target);
    var w1, w2 := "页](textbook:" + (t1 + ")"), "页](textbook:" + (t2 + ")");
    var y1, y2 := "章第" + (p1 + w1), "章第" + (p2 + w2);
    AfterPrefix("[教材第", c1 + y1);
    AfterPrefix("[教材第", c2 + y2);
    assert forall k :: 0 <= k < |c1| ==> IsNumeral(c1[k]);
    assert forall k :: 0 <= k < |c2| ==> IsNumeral(c2[k]);
    LeadingNumeral(c1, y1, c2, y2);
    AfterPrefix("章第", p1 + w1);
    AfterPrefix("章第", p2 + w2);
    LeadingNumeral(p1, w1, p2, w2);
    AfterPrefix("页](textbook:", t1 + ")");
    AfterPrefix("页](textbook:", t2 + ")");
    LeadingNumeral(t1, ")", t2, ")");
    ParseRendered(l1.chapter);
    ParseRendered(l2.chapter);
    ReadRendered(l1.page);
    ReadRendered(l2.page);
    ReadRendered(l1.target);
    ReadRendered(l2.target);
  }

  /** No citation contains the separator that joins citations: it shows only digits, signs and fixed text. */
  lemma RenderAvoidsSeparator(link: Link)
    ensures Separator !in Render(link)
  {
    var chapter := NatToString(link.chapter);
    assert forall k :: 0 <= k < |chapter| ==> chapter[k] != Separator;
  }

  /** One document's citation, or none when its source names no chapter file. */
  function Citation(doc: Document): (c: Option<string>)
    ensures c.None? <==> !MatchesSomewhere(doc.source)
  {
    match Resolve(doc)
    case None => None
    case Some(link) => Some(Render(link))
  }

  /**
   * Equal citation texts come from equal links: in particular two documents
   * cited with the same text show the same page within their chapter.
   */
  lemma CitationDeterminesLink(d1: Document, d2: Document)
    requires Citation(d1).Some? && Citation(d1) == Citation(d2)
    ensures Resolve(d1) == Resolve(d2)
    ensures d1.page == d2.page
  {
    RenderInjective(Resolve(d1).value, Resolve(d2).value);
  }

  /** `documents.map(...).filter((ref) => ref !== null)`: the citations of the matching documents, in order. */
  function Citations(docs: seq<Document>): (refs: seq<string>)
    ensures |refs| <= |docs|
    ensures refs == [] <==> forall k :: 0 <= k < |docs| ==> !MatchesSomewhere(docs[k].source)
  {
    MapDefined(docs, Citation)
  }

  /** Every citation is free of the separator, so joining them loses nothing. */
  lemma CitationsAvoidSeparator(docs: seq<Document>)
    ensures forall k :: 0 <= k < |Citations(docs)| ==> Separator !in Citations(docs)[k]
  {
    var refs := Citations(docs);
    forall k | 0 <= k < |refs| ensures Separator !in refs[k] {
      MapDefinedOrigin(docs, Citation, k);
      var i :| 0 <= i < |docs| && Citation(docs[i]) == Some(refs[k]);
      RenderAvoidsSeparator(Resolve(docs[i]).value);
    }
  }

  /**
   * Each matching document contributes exactly its own citation, placed
   * right after the citations of the documents before it.
   */
  lemma CitationPosition(docs: seq<Document>, i: nat)
    requires i < |docs| && MatchesSomewhere(docs[i].source)
    ensures Citations(docs[..i + 1]) == Citations(docs[..i]) + [Citation(docs[i]).value]
    ensures |Citations(docs[..i])| < |Citations(docs)|
    ensures Citations(docs)[|Citations(docs[..i])|] == Citation(docs[i]).value
  {
    MapDefinedPosition(docs, i, Citation);
  }

  /** A document that names no chapter file adds nothing: dropping it leaves the citations as they were. */
  lemma UnmatchedContributesNothing(docs: seq<Document>, i: nat)
    requires i < |docs| && !MatchesSomewhere(docs[i].source)
    ensures Citations(docs) == Citations(docs[..i] + docs[i + 1..])
  {
    MapDefinedSkip(docs, i, Citation);
  }

  /** When every document matches there is one citation per document, position by position. */
  lemma CitationsAllMatching(docs: seq<Document>)
    requires forall k :: 0 <= k < |docs| ==> MatchesSomewhere(docs[k].source)
    ensures |Citations(docs)| == |docs|
    ensures forall k :: 0 <= k < |docs| ==> Citations(docs)[k] == Citation(docs[k]).value
  {
    MapDefinedTotal(docs, Citation);
  }

  /** The sentence appended to the answer: ` 您可以参考 ${references.join('、')} 获取更多信息。` */
  function ReferenceSentence(refs: seq<string>): (s: string)
  {
    Lead + Join(refs, Separator) + Tail
  }

  /** The citations can be read back from the sentence: cut off the fixed ends and split at the separator. */
  lemma SentenceRecoversCitations(docs: seq<Document>)
    requires Citations(docs) != []
    ensures var s := ReferenceSentence(Citations(docs));
      && |s| >= |Lead| + |Tail|
      && s[..|Lead|] == Lead
      && s[|s| - |Tail|..] == Tail
      && Split(s[|Lead|..|s| - |Tail|], Separator) == Citations(docs)
  {
    var refs := Citations(docs);
    Enclosed(Lead, Join(refs, Separator), Tail);
    CitationsAvoidSeparator(docs);
    SplitJoin(refs, Separator);
  }

  /** The response object, whose `answer` the resolver extends in place. */
  class ChatResponse {
    var thought: string
    var answer: string
    var documents: seq<Document>

    constructor (thought: string, answer: string, documents: seq<Document>)
      ensures this.thought == thought && this.answer == answer && this.documents == documents
    {
      this.thought := thought;
      this.answer := answer;
      this.documents := documents;
    }
  }

  /**
   * The post-processing in `getChatResponse`, applied to the backend's
   * response: with retrieval on and at least one citation, the answer gets
   * the reference sentence appended; in every other case it is left alone.
   * Thought and documents never change.
   */
  method GetChatResponse(data: ChatRequest, response: ChatResponse)
    modifies response`answer
    ensures response.thought == old(response.thought) && response.documents == old(response.documents)
    ensures !data.useRag || response.documents == [] || Citations(response.documents) == [] ==>
              response.answer == old(response.answer)
    ensures data.useRag && Citations(response.documents) != [] ==>
              response.answer == old(response.answer) + ReferenceSentence(Citations(response.documents))
  {
    if data.useRag && |response.documents| > 0 {
      var references := Citations(response.documents);
      if |references| > 0 {
        response.answer := response.answer + ReferenceSentence(references);
      }
    }
  }

  /** The document the mock backend produces for a chapter and a page within it. */
  function MockDocument(chapter: nat, page: int, content: string): Document
  {
    Document(ChapterFile(chapter), page, content)
  }

  /** A document naming a chapter of the table links to the chapter's start page plus its page, minus one. */
  lemma CitationOfMappedChapter(doc: Document, chapter: nat)
    requires ChapterOf(doc.source) == Some(chapter) && chapter in ChapterPageMap
    ensures Citation(doc) == Some(Render(Link(chapter, doc.page, ChapterPageMap[chapter] + doc.page - 1)))
  {
  }

  /** A document naming a chapter outside the table links to its own page number. */
  lemma CitationOfUnmappedChapter(doc: Document, chapter: nat)
    requires ChapterOf(doc.source) == Some(chapter) && chapter !in ChapterPageMap
    ensures Citation(doc) == Some(Render(Link(chapter, doc.page, doc.page)))
  {
  }

  /** A mock document for chapter 1 to 16 is cited with its chapter's offset. */
  lemma MockCitation(chapter: nat, page: int, content: string)
    requires 1 <= chapter <= 16
    ensures Citation(MockDocument(chapter, page, content)) ==
              Some(Render(Link(chapter, page, ChapterPageMap[chapter] + page - 1)))
  {
    ChapterFileRoundTrip(chapter);
    CitationOfMappedChapter(MockDocument(chapter, page, content), chapter);
  }

  /** Two documents that both match are cited in their order. */
  lemma CitationsOfPair(d1: Document, d2: Document, r1: string, r2: string)
    requires Citation(d1) == Some(r1) && Citation(d2) == Some(r2)
    ensures Citations([d1, d2]) == [r1, r2]
  {
    MapDefinedTotal([d1, d2], Citation);
  }

  /** With retrieval on, the mock's two documents always yield two citations, so the answer is extended. */
  lemma MockPairCited(c1: nat, p1: int, c2: nat, p2: int, x1: string, x2: string)
    requires 1 <= c1 <= 16 && 1 <= c2 <= 16
    ensures Citations([MockDocument(c1, p1, x1), MockDocument(c2, p2, x2)]) ==
              [Render(Link(c1, p1, ChapterPageMap[c1] + p1 - 1)), Render(Link(c2, p2, ChapterPageMap[c2] + p2 - 1))]
  {
    var d1, d2 := MockDocument(c1, p1, x1), MockDocument(c2, p2, x2);
    var r1, r2 := Render(Link(c1, p1, ChapterPageMap[c1] + p1 - 1)), Render(Link(c2, p2, ChapterPageMap[c2] + p2 - 1));
    MockCitation(c1, p1, x1);
    MockCitation(c2, p2, x2);
    CitationsOfPair(d1, d2, r1, r2);
  }

  /** Chapter 3 starts on page 51, so page 5 of "ch3.pdf" links to page 55 and still shows page 5. */
  lemma ChapterThreePageFive(content: string)
    ensures Citation(Document("ch3.pdf", 5, content)) == Some("[教材第3章第5页](textbook:55)")
  {
    assert ChapterFile(3) == "ch3.pdf";
    ChapterFileRoundTrip(3);
    CitationOfMappedChapter(Document("ch3.pdf", 5, content), 3);
    assert ChapterPageMap[3] == 51;
    RenderedChapterThree();
  }

  /** The texts of the links in the examples here. */
  lemma RenderedChapterThree()
    ensures Render(Link(3, 5, 55)) == "[教材第3章第5页](textbook:55)"
  {
  }

  lemma RenderedChapterSeventeen()
    ensures Render(Link(17, 4, 4)) == "[教材第17章第4页](textbook:4)"
  {
  }

  /** Leading zeros are read away: "ch03.pdf" is chapter 3 and is shown as 3. */
  lemma LeadingZeroChapter(content: string)
    ensures Citation(Document("ch03.pdf", 5, content)) == Some("[教材第3章第5页](textbook:55)")
  {
    LeadingZerosIgnored();
    CitationOfMappedChapter(Document("ch03.pdf", 5, content), 3);
    assert ChapterPageMap[3] == 51;
    RenderedChapterThree();
  }

  /** Chapter 17 is not in the table: the link goes to the page itself. */
  lemma UnmappedChapter(content: string)
    ensures Citation(Document("ch17.pdf", 4, content)) == Some("[教材第17章第4页](textbook:4)")
  {
    assert ChapterFile(17) == "ch17.pdf";
    ChapterFileRoundTrip(17);
    CitationOfUnmappedChapter(Document("ch17.pdf", 4, content), 17);
    RenderedChapterSeventeen();
  }

  /** A source with no chapter file name yields no citation. */
  lemma NoChapterFile(content: string)
    ensures Citation(Document("notes.pdf", 4, content)) == None
  {
    NoMatchWithoutC("notes.pdf");
  }
}
