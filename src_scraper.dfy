/**
  The HTML cleaner of `src/scraper.py`, which the HTTP routes do not use (they
  import the one of `src/text_scraping.py`): the same boilerplate removal, but
  only paragraphs and ordered lists have their text collected.
 */
module SrcScraper {
  import opened HtmlTree
  import TextScraping

  /** The tags whose elements, with everything below them, are removed. */
  const StopHtmlElements: set<string> :=
    {"head", "script", "style",
     "footer", "img", "button",
     "h1", "h2", "h3",
     "header", "web-header", "meta",
     "link", "nav"}

  /** The tags whose elements' text is collected. */
  const TextElements: set<string> := {"p", "ol"}

  class HtmlCleaner {
    const stopHtmlElements: set<string> := StopHtmlElements
    /** The parsed document (the BeautifulSoup object's top-level nodes). */
    var soup: seq<Node>

    predicate Valid()
      reads this
    {
      DistinctIds(soup)
    }

    /** Parsing is not modelled: the cleaner starts from the parsed document. */
    constructor (htmlBody: seq<Node>)
      requires DistinctIds(htmlBody)
      ensures Valid() && soup == htmlBody
    {
      soup := htmlBody;
    }

    /** Removes, in place, every subtree rooted at a stop element, and returns the document. */
    method RemoveElementsFromHtml() returns (result: seq<Node>)
      requires Valid()
      modifies this
      ensures Valid()
      ensures soup == Prune(old(soup), StopHtmlElements)
      ensures FindAll(soup, StopHtmlElements) == []
      ensures IdSet(soup) == IdSet(old(soup)) - IdSet(FindAll(old(soup), StopHtmlElements))
      ensures result == soup
    {
      PruneRemovesAll(soup, StopHtmlElements);
      PruneIds(soup, StopHtmlElements);
      soup := DetachAll(soup, stopHtmlElements);
      result := soup;
    }

    /**
      Removes the stop elements, then joins the text of every remaining p/ol
      element, each followed by "\n", in document order.
     */
    method GetTextFromUrl() returns (wholeText: string)
      requires Valid()
      modifies this
      ensures Valid()
      ensures soup == Prune(old(soup), StopHtmlElements)
      ensures wholeText == ElementTexts(FindAll(soup, TextElements))
      ensures wholeText == SelectedText(old(soup), StopHtmlElements, TextElements)
    {
      var _ := RemoveElementsFromHtml();
      var textElements := FindAll(soup, TextElements);
      wholeText := JoinElementTexts(textElements);
      SelectedTextOfPruned(old(soup), StopHtmlElements, TextElements);
    }
  }

  /**
    Both cleaners remove the same elements, and they produce the same text
    exactly when no unordered list or block quote survives the removal.
   */
  lemma {:induction false} SameTextAsTextScraping(doc: seq<Node>)
    ensures StopHtmlElements == TextScraping.StopHtmlElements
    ensures SelectedText(doc, StopHtmlElements, TextElements)
         == SelectedText(doc, TextScraping.StopHtmlElements, TextScraping.TextElements)
        <==> FindAll(Prune(doc, StopHtmlElements), {"ul", "blockquote"}) == []
  {
    var pruned := Prune(doc, StopHtmlElements);
    var extra: set<string> := {"ul", "blockquote"};
    TagSets();
    var more := ElementTexts(FindAll(pruned, extra));
    SelectedTextOfPruned(doc, StopHtmlElements, TextElements);
    SelectedTextOfPruned(doc, StopHtmlElements, TextElements + extra);
    FindAllDisjointLength(pruned, TextElements, extra);
    ElementTextsEmpty(FindAll(pruned, extra));
    if FindAll(pruned, extra) == [] {
      FindAllIgnoresAbsent(pruned, TextElements, extra);
    } else {
      assert |more| > 0;
    }
  }

  /** The selector of `src/text_scraping.py` is this one's plus `ul` and `blockquote`. */
  lemma {:induction false} TagSets()
    ensures TextScraping.TextElements == TextElements + {"ul", "blockquote"}
    ensures TextElements !! {"ul", "blockquote"}
  {
  }

  /** Text under an unordered list, and not in a paragraph, is not collected. */
  lemma {:induction false} UnorderedListIgnored()
    ensures SelectedText([Element(0, "ul", [Text("a")])], StopHtmlElements, TextElements) == ""
    ensures SelectedText([Element(0, "ol", [Text("a")])], StopHtmlElements, TextElements) == "a\n"
  {
    assert VisibleText([Text("a")], StopHtmlElements) == "a";
    assert SelectedText([Text("a")], StopHtmlElements, TextElements) == "";
  }
}
