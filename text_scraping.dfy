/**
  The extraction classes of `src/text_scraping.py`: an HTML cleaner that
  removes boilerplate elements and collects the text of paragraphs, lists and
  block quotes, and two PDF cleaners, one listing the text of every layout
  block (PyMuPDF) and one concatenating the text of every page (pypdf).
 */
module TextScraping {
  import opened Seqs
  import opened HtmlTree

  /** The tags whose elements, with everything below them, are removed. */
  const StopHtmlElements: set<string> :=
    {"head", "script", "style",
     "footer", "img", "button",
     "h1", "h2", "h3",
     "header", "web-header", "meta",
     "link", "nav"}

  /** The tags whose elements' text is collected. */
  const TextElements: set<string> := {"p", "ol", "ul", "blockquote"}

  class HtmlCleaner {
    const stopHtmlElements: set<string> := StopHtmlElements
    /** The parsed document (the BeautifulSoup object's top-level nodes). */
    var soup: seq<Node>

    predicate Valid()
      reads this
    {
      DistinctIds(soup)
    }

    /** Parsing is not modelled: the cleaner starts from the parsed document. */
    constructor (htmlBody: seq<Node>)
      requires DistinctIds(htmlBody)
      ensures Valid() && soup == htmlBody
    {
      soup := htmlBody;
    }

    /** Removes, in place, every subtree rooted at a stop element, and returns the document. */
    method RemoveElementsFromHtml() returns (result: seq<Node>)
      requires Valid()
      modifies this
      ensures Valid()
      ensures soup == Prune(old(soup), StopHtmlElements)
      ensures FindAll(soup, StopHtmlElements) == []
      ensures IdSet(soup) == IdSet(old(soup)) - IdSet(FindAll(old(soup), StopHtmlElements))
      ensures result == soup
    {
      PruneRemovesAll(soup, StopHtmlElements);
      PruneIds(soup, StopHtmlElements);
      soup := DetachAll(soup, stopHtmlElements);
      result := soup;
    }

    /**
      Removes the stop elements, then joins the text of every remaining
      p/ol/ul/blockquote element, each followed by "\n", in document order.
     */
    method GetTextFromHtml() returns (wholeText: string)
      requires Valid()
      modifies this
      ensures Valid()
      ensures soup == Prune(old(soup), StopHtmlElements)
      ensures wholeText == ElementTexts(FindAll(soup, TextElements))
      ensures wholeText == SelectedText(old(soup), StopHtmlElements, TextElements)
    {
      var _ := RemoveElementsFromHtml();
      var textElements := FindAll(soup, TextElements);
      wholeText := JoinElementTexts(textElements);
      SelectedTextOfPruned(old(soup), StopHtmlElements, TextElements);
    }
  }

  /**
    On a second call nothing is left to remove: the document stays as it is
    and the same text is produced again.
   */
  lemma {:induction false} CleaningTwiceChangesNothing(doc: seq<Node>)
    ensures FindAll(Prune(doc, StopHtmlElements), StopHtmlElements) == []
    ensures Prune(Prune(doc, StopHtmlElements), StopHtmlElements) == Prune(doc, StopHtmlElements)
    ensures SelectedText(Prune(doc, StopHtmlElements), StopHtmlElements, TextElements)
         == SelectedText(doc, StopHtmlElements, TextElements)
  {
    PruneRemovesAll(doc, StopHtmlElements);
    PruneIdempotent(doc, StopHtmlElements);
    SelectedTextOfPruned(doc, StopHtmlElements, TextElements);
    SelectedTextOfPruned(Prune(doc, StopHtmlElements), StopHtmlElements, TextElements);
  }

  /**
    A list holding a paragraph contributes its text twice, once for the list
    and once for the nested paragraph; a navigation bar contributes nothing,
    even through a paragraph inside it.
   */
  lemma {:induction false} NestedSelectionRepeats()
    ensures SelectedText([Element(0, "ul", [Element(1, "p", [Text("a")])])], StopHtmlElements, TextElements)
         == "a\na\n"
    ensures SelectedText([Element(0, "nav", [Element(1, "p", [Text("a")])])], StopHtmlElements, TextElements)
         == ""
  {
    var p := [Element(1, "p", [Text("a")])];
    assert VisibleText([Text("a")], StopHtmlElements) == "a";
    assert VisibleText(p, StopHtmlElements) == "a";
    assert SelectedText([Text("a")], StopHtmlElements, TextElements) == "";
    assert SelectedText(p, StopHtmlElements, TextElements) == "a\n";
  }

  // ---------------------------------------------------------------------------
  // PyMuPDF

  /**
    One entry of PyMuPDF's `page.get_text("blocks")`:
    (x0, y0, x1, y1, text, block_no, block_type); `text` is field 4.
   */
  datatype Block = Block(x0: real, y0: real, x1: real, y1: real, text: string, blockNo: int, blockType: int)

  /** The text field of every block of a page, in order. */
  function PageBlockTexts(page: seq<Block>): seq<string>
  {
    seq(|page|, j requires 0 <= j < |page| => page[j].text)
  }

  /** For every page, the list of its block texts. */
  function DocumentBlockTexts(doc: seq<seq<Block>>): seq<seq<string>>
  {
    seq(|doc|, p requires 0 <= p < |doc| => PageBlockTexts(doc[p]))
  }

  class PyMuPdfCleaner {
    /** The opened document, as the blocks PyMuPDF reports for each page. */
    const reader: seq<seq<Block>>

    constructor (pdf: seq<seq<Block>>)
      ensures reader == pdf
    {
      reader := pdf;
    }

    /**
      The text of every block of every page, pages in order and blocks in
      their order on the page, with nothing filtered out.
     */
    method ExtractTextBlocks() returns (textBlocks: seq<string>)
      ensures textBlocks == Flatten(DocumentBlockTexts(reader))
      ensures |textBlocks| == SumLengths(reader)
      ensures forall p :: 0 <= p < |reader| ==>
                var start := SumLengths(reader[..p]);
                start + |reader[p]| <= |textBlocks| &&
                textBlocks[start..start + |reader[p]|] == PageBlockTexts(reader[p])
    {
      var pages := DocumentBlockTexts(reader);
      textBlocks := [];
      for pageNum := 0 to |reader|
        invariant textBlocks == Flatten(pages[..pageNum])
      {
        var blocks := reader[pageNum];
        for b := 0 to |blocks|
          invariant textBlocks == Flatten(pages[..pageNum]) + pages[pageNum][..b]
        {
          assert pages[pageNum][..b + 1] == pages[pageNum][..b] + [blocks[b].text];
          textBlocks := textBlocks + [blocks[b].text];
        }
        assert pages[pageNum][..|blocks|] == pages[pageNum];
        FlattenSnoc(pages, pageNum);
      }
      assert pages[..|reader|] == pages;
      BlockCount(reader);
      forall p | 0 <= p < |reader|
        ensures var start := SumLengths(reader[..p]);
                start + |reader[p]| <= |textBlocks| &&
                textBlocks[start..start + |reader[p]|] == PageBlockTexts(reader[p])
      {
        PageBlocksAt(reader, p);
      }
    }
  }

  /** One extracted text per block: the count is the total number of blocks. */
  lemma {:induction false} BlockCount(doc: seq<seq<Block>>)
    ensures |Flatten(DocumentBlockTexts(doc))| == SumLengths(doc)
  {
    FlattenLength(DocumentBlockTexts(doc));
    SameLengths(DocumentBlockTexts(doc), doc);
  }

  /**
    The texts of the blocks of page p form the slice that starts after the
    blocks of all earlier pages, in their order on the page.
   */
  lemma {:induction false} PageBlocksAt(doc: seq<seq<Block>>, p: nat)
    requires p < |doc|
    ensures var start := SumLengths(doc[..p]);
      && start + |doc[p]| <= |Flatten(DocumentBlockTexts(doc))|
      && Flatten(DocumentBlockTexts(doc))[start..start + |doc[p]|] == PageBlockTexts(doc[p])
  {
    var pages := DocumentBlockTexts(doc);
    assert forall k :: 0 <= k < p ==> pages[..p][k] == PageBlockTexts(doc[..p][k]);
    SameLengths(pages[..p], doc[..p]);
    FlattenSlice(pages, p);
  }

  /** Block j of page p contributes field 4 of its tuple, right after the blocks before it. */
  lemma {:induction false} BlockTextAt(doc: seq<seq<Block>>, p: nat, j: nat)
    requires p < |doc| && j < |doc[p]|
    ensures SumLengths(doc[..p]) + j < |Flatten(DocumentBlockTexts(doc))|
    ensures Flatten(DocumentBlockTexts(doc))[SumLengths(doc[..p]) + j] == doc[p][j].text
  {
    PageBlocksAt(doc, p);
    var start := SumLengths(doc[..p]);
    assert Flatten(DocumentBlockTexts(doc))[start..start + |doc[p]|][j] == PageBlockTexts(doc[p])[j];
  }

  // ---------------------------------------------------------------------------
  // pypdf

  /** A page of a pypdf reader; what `page.extract_text()` makes of it is not modelled. */
  datatype PdfPage = PdfPage(contentStream: seq<bv8>)

  /** `page.extract_text()` of every page, in page order. */
  function PageTexts(pages: seq<PdfPage>, extractText: PdfPage -> string): seq<string>
  {
    seq(|pages|, p requires 0 <= p < |pages| => extractText(pages[p]))
  }

  class PyPdfCleaner {
    /** `reader.pages`. */
    const pages: seq<PdfPage>
    /** pypdf's text extraction for one page. */
    const extractText: PdfPage -> string

    constructor (pages: seq<PdfPage>, extractText: PdfPage -> string)
      ensures this.pages == pages && this.extractText == extractText
    {
      this.pages := pages;
      this.extractText := extractText;
    }

    /**
      The page texts concatenated in page order with no separator: the text of
      page p is the slice that starts after the texts of the pages before it.
     */
    method TextFromPages() returns (text: string)
      ensures text == Flatten(PageTexts(pages, extractText))
      ensures |text| == SumLengths(PageTexts(pages, extractText))
      ensures forall p :: 0 <= p < |pages| ==>
                var texts := PageTexts(pages, extractText);
                var start := SumLengths(texts[..p]);
                start + |texts[p]| <= |text| && text[start..start + |texts[p]|] == texts[p]
    {
      var texts := PageTexts(pages, extractText);
      text := "";
      for p := 0 to |pages|
        invariant text == Flatten(texts[..p])
      {
        FlattenSnoc(texts, p);
        text := text + extractText(pages[p]);
      }
      assert texts[..|pages|] == texts;
      FlattenLength(texts);
      forall p | 0 <= p < |pages|
        ensures var start := SumLengths(texts[..p]);
                start + |texts[p]| <= |text| && text[start..start + |texts[p]|] == texts[p]
      {
        FlattenSlice(texts, p);
      }
    }
  }
}
