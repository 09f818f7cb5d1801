# Text preparation of the FAQ ingestion pipeline, in Dafny

The repository turns web pages and PDF documents into short text fragments, then asks a language model for questions about those fragments. This project models that text-preparation stage and proves what it computes.

- **HTML cleaning** (`src/text_scraping.py`, `src/scraper.py`). A cleaner keeps the parsed page, a BeautifulSoup tree. It cuts out, in place, every element whose tag is on the stop list (`head`, `script`, `style`, `footer`, `img`, `button`, `h1`-`h3`, `header`, `web-header`, `meta`, `link`, `nav`), together with everything below it. It then collects the text of every remaining `p`/`ol`/`ul`/`blockquote` element, or only the `p`/`ol` elements in the unused cleaner of `src/scraper.py` (the HTTP routes of `src/main.py` import the other one). Each text is followed by `"\n"`, in document order.
- **Page reading** (`scraper.py`). Scripts and styles are extracted and the remaining text is taken. The text is then normalised: every line is stripped, empty lines are dropped, and the rest is joined with `"\n"`.
- **PDF extraction** (`src/text_scraping.py`). The PyMuPDF cleaner lists the text of every layout block of every page. The pypdf cleaner concatenates the text of every page.
- **Question generation** (`src/question_generator.py`).
  - The T5 generator asks the model for one question per answer. Each prompt is a fixed instruction followed by the answer.
  - The OpenAI generator cuts the fragment list into consecutive batches of `int(len / num_batches)` fragments. It sends each batch, joined with `"\n\n"` and preceded by a fixed template. It collects one reply per batch.

## Modules

- `Seqs` (`seqs.dfy`) — flattening a list of lists, total lengths, counting.
- `PyStr` (`py_str.dfy`) — Python's `str.isspace`, `str.splitlines`, `str.strip` and `str.join`. It models every line boundary `splitlines` knows, including `\r\n`, `\x0b`, `\x0c`, `\x1c`-`\x1e`, `\x85`, `\u2028` and `\u2029`.
- `HtmlTree` (`html_tree.dfy`) — the parsed document, and the BeautifulSoup operations the cleaners use.
  - A document is a forest of `Element(id, tag, children)` and `Text(s)` nodes.
  - `id` stands for the identity of the BeautifulSoup object. `decompose()` or `extract()` of a found element removes the subtree rooted at that object. Once that object has left the tree, they do nothing.
  - `DistinctIds` says that the objects of a parsed page are distinct.
  - `DetachAll` is the shared removal loop `for e in soup.find_all(tags): e.decompose()`. It appears in all three HTML files and is proved to cut out exactly the subtrees rooted at the given tags (`Prune`).
  - `JoinElementTexts` is the shared `whole_text += e.text + "\n"` loop.
  - `SelectedText` is a one-walk reference definition of what the cleaners return.
- `TextScraping` (`text_scraping.dfy`) — the classes of `src/text_scraping.py`:
  - `HtmlCleaner` holds the tree in a mutable field;
  - `PyMuPdfCleaner` is given its pages of blocks; `PageBlockTexts` and `DocumentBlockTexts` are the definitions of the block texts of one page and of all pages, the text field (index 4) of every block in order;
  - `PyPdfCleaner` is given its pages and pypdf's page-text extraction as a function; `PageTexts` is the definition of the list of page texts, one `extract_text()` per page in page order.
- `SrcScraper` (`src_scraper.dfy`) — the `HtmlCleaner` of `src/scraper.py`.
- `Scraper` (`scraper.dfy`) — `get_text_from_url` of `scraper.py`. The page is given already parsed, and the normalisation is the pure function `Normalise`.
- `QuestionGenerator` (`question_generator.dfy`) — both generator classes. The models are constant function-typed fields.

Where the code and its documentation disagree, the model follows the code. `generate_question` is annotated `-> list[str]`, but it returns the single decoded string (`src/question_generator.py:18-22`), so it is modelled as returning a `string`.

## Model

| member | source | states |
|---|---|---|
| HtmlTree.FindAll | src/text_scraping.py:24 | `find_all(tags)` returns only elements whose tag is one of `tags`, and every element of the page at any depth (`Within`) whose tag is one of `tags` is returned; the order is the pre-order walk of the document |
| HtmlTree.FindAllWithin | src/text_scraping.py:24 | every node `find_all` returns is a node of the page, so with `FindAll` it returns exactly the page's elements with one of the tags |
| HtmlTree.Without | src/text_scraping.py:24-26 | removing the subtrees rooted at the given objects: on a page of distinct objects, the objects that stay are exactly those neither given nor below a given one (`Below`); nothing changes when none of them is on the page |
| HtmlTree.Decompose | src/text_scraping.py:26 | after `decompose()` the object is no longer on the page; on a page of distinct objects exactly the objects outside its subtree stay; decomposing an object that has already left the page changes nothing |
| HtmlTree.NodeText | src/text_scraping.py:44 | definition: `.text` of a node, the concatenation of its strings in document order |
| HtmlTree.ForestText | scraper.py:18 | definition: `get_text()` of the page, the concatenation of its strings in document order |
| HtmlTree.DetachAll | src/text_scraping.py:24-26 | decomposing every found stop element one by one, including those already gone with an ancestor, cuts out exactly the subtrees rooted at a stop tag, and the remaining objects stay distinct |
| HtmlTree.WithoutFoundIsPrune | src/text_scraping.py:24-26 | removing the found elements by identity is the same as pruning by tag, on a page of distinct objects |
| HtmlTree.WithoutUnion | src/text_scraping.py:24-26 | decomposing one element after others removes the union of their subtrees, which is the loop step |
| HtmlTree.FoundWithin | src/text_scraping.py:24 | every element `find_all` returns belongs to the page |
| HtmlTree.JoinElementTexts | src/text_scraping.py:42-44 | the accumulation loop yields each element's text followed by "\n", in order |
| HtmlTree.PruneRemovesAll | src/text_scraping.py:24-26 | after the removal, no element with a stop tag is left at any depth |
| HtmlTree.PruneIds | src/text_scraping.py:24-26 | the objects left are exactly those that were neither a stop element nor below one |
| HtmlTree.PruneDistinct | src/text_scraping.py:24-26 | the pruned page still consists of distinct objects, all taken from the original page |
| HtmlTree.PruneIdempotent | src/text_scraping.py:24-29 | removing the stop elements a second time leaves the page unchanged |
| HtmlTree.PrunedTextIsVisible | scraper.py:13-18 | `get_text()` after the removal is the text that is not under a removed tag |
| HtmlTree.SelectedTextOfPruned | src/text_scraping.py:37-44 | removing, then selecting and joining, is the one-walk reference `SelectedText` of the original page, so text under a stop tag never appears |
| HtmlTree.ElementTextsEmpty | src/text_scraping.py:42-46 | the result is "" exactly when nothing was selected, and otherwise it ends with "\n" |
| HtmlTree.ElementTextsTerminators | src/text_scraping.py:42-44 | the result has one extra character and one extra "\n" per selected element |
| HtmlTree.FindAllIgnoresAbsent | src/scraper.py:36 | adding selector tags that occur nowhere does not change the selection |
| HtmlTree.FindAllDisjointLength | src/scraper.py:36 | selecting with two disjoint tag sets gives, in length, both selections' texts |
| TextScraping.HtmlCleaner.constructor | src/text_scraping.py:8-16 | the cleaner starts from the parsed page, whose objects are distinct |
| TextScraping.HtmlCleaner.RemoveElementsFromHtml | src/text_scraping.py:18-29 | the page held is pruned in place: no stop element is left, exactly the objects outside removed subtrees remain, and the page is returned |
| TextScraping.HtmlCleaner.GetTextFromHtml | src/text_scraping.py:31-46 | the page is pruned; the result is every remaining p/ol/ul/blockquote text followed by "\n", in document order, and equals `SelectedText` of the original page |
| TextScraping.CleaningTwiceChangesNothing | src/text_scraping.py:24-46 | a second cleaning finds no stop element, leaves the page unchanged and yields the same text |
| TextScraping.NestedSelectionRepeats | src/text_scraping.py:40-44 | a paragraph inside a list contributes its text twice, and a paragraph inside `nav` contributes nothing |
| TextScraping.PyMuPdfCleaner.constructor | src/text_scraping.py:62-63 | the cleaner holds the opened document |
| TextScraping.PyMuPdfCleaner.ExtractTextBlocks | src/text_scraping.py:65-76 | the nested loops return the flattening of the block texts: as many entries as blocks, and the slice for page p holds that page's block texts in order, after all earlier pages |
| TextScraping.BlockCount | src/text_scraping.py:65-76 | there are exactly as many extracted texts as blocks, so nothing is filtered |
| TextScraping.PageBlocksAt | src/text_scraping.py:68-74 | page p's block texts occupy the slice that starts after the blocks of pages 0..p-1 |
| TextScraping.BlockTextAt | src/text_scraping.py:72-74 | block j of page p sits at the number of earlier blocks plus j, and that entry is its text field |
| TextScraping.PyPdfCleaner.constructor | src/text_scraping.py:83-84 | the cleaner holds the reader's pages |
| TextScraping.PyPdfCleaner.TextFromPages | src/text_scraping.py:89-93 | the page texts are concatenated in page order with no separator: the total length is the sum, and page p's text is the slice after the earlier pages |
| SrcScraper.HtmlCleaner.constructor | src/scraper.py:6-14 | the cleaner starts from the parsed page, whose objects are distinct |
| SrcScraper.HtmlCleaner.RemoveElementsFromHtml | src/scraper.py:16-26 | the page held is pruned in place: no stop element is left, exactly the objects outside removed subtrees remain, and the page is returned |
| SrcScraper.HtmlCleaner.GetTextFromUrl | src/scraper.py:28-42 | the page is pruned; the result is every remaining p/ol text followed by "\n", in document order |
| SrcScraper.SameTextAsTextScraping | src/scraper.py:7-36 | the stop list equals that of `src/text_scraping.py`; the two cleaners agree on a page exactly when no `ul` or `blockquote` survives the removal |
| SrcScraper.UnorderedListIgnored | src/scraper.py:36 | text directly in a `ul` is not collected, while the same text in an `ol` is |
| PyStr.FirstBreak | scraper.py:22 | finds the first line boundary |
| PyStr.SplitLines | scraper.py:22 | the `splitlines()` pieces contain no line boundary, and joined with "\n" (plus one "\n" when the text ends with a boundary) they give back the text with each boundary, "\r\n" counted once, written as "\n": this fixes every cut, empty lines included; there are no pieces exactly for "" |
| PyStr.Strip | scraper.py:22 | `strip()` gives the middle of the line: the slice of it that starts after its leading whitespace and is followed by whitespace only; it is "" exactly for whitespace-only lines, otherwise it starts and ends with non-whitespace, and it adds no line boundary |
| PyStr.Join | scraper.py:23 | `sep.join(parts)` is "" for no parts and the part itself for one part; for more its length is the parts' total length plus one separator between each two parts, and it starts with the first part |
| PyStr.JoinAppend | scraper.py:23 | joining two non-empty lists is joining each with one separator between; with the one-part case this determines `sep.join` |
| PyStr.StripStrippedLine | scraper.py:22 | a line already stripped is left unchanged |
| PyStr.JoinEmpty | scraper.py:23 | a join of non-empty lines is "" exactly when there are no lines |
| PyStr.SplitLinesOfJoin | scraper.py:22-23 | splitting a "\n"-join of non-empty, boundary-free lines gives the lines back |
| PyStr.JoinEnds | scraper.py:23 | a join of non-empty parts starts with the first part's first character and ends with the last part's last character |
| PyStr.JoinedLinesShape | scraper.py:23 | in a "\n"-join of stripped lines, every line boundary is a single "\n" between two non-whitespace characters, and the ends are non-whitespace |
| PyStr.SplitLinesAllSpace | scraper.py:22 | a text is whitespace only exactly when each of its lines is |
| Scraper.StrippedLines | scraper.py:22-23 | a single line is kept as its strip exactly when it is not whitespace only; the kept lines are stripped and non-empty, contain no boundary when the input lines contain none, and none are kept exactly when every input line is whitespace |
| Scraper.StrippedLinesAppend | scraper.py:22-23 | the lines of two lists are filtered independently and stay in order; with the single-line case this determines the filter |
| Scraper.StrippedLinesOfStripped | scraper.py:22-23 | stripped, non-empty lines pass through unchanged |
| Scraper.GetTextFromUrl | scraper.py:6-25 | the result is the normalised text of the page with every script and style extracted, which is its text outside script/style elements |
| Scraper.Normalise | scraper.py:22-23 | the output is "" exactly when the text is whitespace only; otherwise it has no leading or trailing whitespace and no blank line, and every line boundary is one "\n" between two non-whitespace characters |
| Scraper.NormaliseLines | scraper.py:22-23 | the output lines are exactly the stripped, non-empty input lines, in order, and each is stripped and non-empty |
| Scraper.NormaliseIdempotent | scraper.py:22-23 | normalising the output again returns it unchanged |
| QuestionGenerator.QuestionGeneratorTransformers.constructor | src/question_generator.py:13-16 | the generator holds the given model; its instruction is the fixed string |
| QuestionGenerator.QuestionGeneratorTransformers.GenerateQuestion | src/question_generator.py:18-22 | the model is given exactly the instruction followed by the prompt |
| QuestionGenerator.QuestionGeneratorTransformers.GenerateQuestions | src/question_generator.py:24-28 | one question per answer, in order: question i is the model's output for the instruction followed by answer i (none for no answers) |
| QuestionGenerator.TruncDiv | src/question_generator.py:59 | `int(a / b)` rounds toward zero: for b > 0 it is the largest q >= 0 with q * b <= a, for b < 0 the negation of that for -b, and it is 0 exactly when a < abs(b) |
| QuestionGenerator.QuestionGeneratorOpenAI.constructor | src/question_generator.py:32-35 | the generator holds the given chat model; its template is the fixed string |
| QuestionGenerator.QuestionGeneratorOpenAI.Completion | src/question_generator.py:37-54 | the user message is the template followed by the prompt |
| QuestionGenerator.QuestionGeneratorOpenAI.QueryInBatches | src/question_generator.py:56-66 | num_batches = 0 raises ZeroDivisionError; a zero batch size (fewer fragments than abs(num_batches)) raises in `range`; a negative size gives no replies; otherwise reply k is the completion of the template followed by batch k joined with "\n\n", one per batch and in batch order |
| QuestionGenerator.Batches | src/question_generator.py:60-62 | definition: the slices `fragments[i:min(i + size, len)]` for `i` in `range(0, len, size)`; the lemmas below state what they are |
| QuestionGenerator.BatchesStep | src/question_generator.py:60-62 | the batch starting at i is `fragments[i:min(i + size, len)]`, followed by the batches from i + size |
| QuestionGenerator.BatchesFlatten | src/question_generator.py:60-62 | the batches, concatenated in order, are the fragment list |
| QuestionGenerator.BatchesShape | src/question_generator.py:59-62 | every batch is non-empty and holds at most `batch_size` fragments, and all but the last hold exactly `batch_size` |
| QuestionGenerator.BatchCount | src/question_generator.py:60 | there are ceil(n / batch_size) batches, as many as `range(0, n, batch_size)` has values |
| QuestionGenerator.BatchesDrop | src/question_generator.py:60-61 | m full batches can be taken off the front of a list of at least m * size fragments |
| QuestionGenerator.BatchesAtMost | src/question_generator.py:60-61 | there are never more batches than fragments, and at least one for a non-empty list |
| QuestionGenerator.BatchCountBounds | src/question_generator.py:59-60 | asking for k batches of at least k fragments makes between k and 2k - 1 requests, and exactly k when k divides the number of fragments |
| QuestionGenerator.TenFragmentsInThreeBatches | src/question_generator.py:59-62 | 10 fragments in 3 batches give a batch size of 3 and 4 requests, the last holding the tenth fragment |

## Left out

- Parsing is not modelled: `BeautifulSoup(...)`, `fitz.open`, `PdfReader` and `urlopen`. Each model starts from the parsed tree, the pages of blocks or the list of pages. The URL fetch and read in `scraper.py:8-9` are not modelled.
- Nodes other than elements and strings are not modelled: comments, doctypes, processing instructions and attributes. BeautifulSoup's `.text` leaves out comments, so a page with comments is not represented.
- The `except AttributeError` branch around `decompose()` is not modelled. Decomposing a found tag does not raise, and that branch only logs.
- `write_file` (`src/text_scraping.py:48-58`, `src/scraper.py:44-48`) is left out because it only writes the collected text to a file.
- `close_reader` (`src/text_scraping.py:78-79`) and `get_metadata` (`src/text_scraping.py:86-87`) are left out. They close the PyMuPDF document and return pypdf's metadata object, and neither touches the text.
- PyMuPDF's layout analysis and pypdf's `extract_text()` stay opaque. Blocks are given as values, and the page-text extraction is a function parameter.
- The T5 tokenizer, `generate(max_new_tokens=1000)` and `decode` are one uninterpreted function `model`. The OpenAI client is also one uninterpreted function `chat`. It includes the fixed system message, the model name and the choice of the first reply's `content`, which may be None.
- `TruncDiv`: `total / num_batches` is a floating-point division, and the model truncates the exact quotient. The two agree for fewer than 2^53 fragments.
- Without, Decompose: the contracts say which elements stay, not which strings; that the strings outside the removed subtrees stay, in order, is stated for the whole removal loop by `DetachAll` (equal to `Prune`) and `PrunedTextIsVisible`.
- NodeText, ForestText: every string of the page counts as text. BeautifulSoup 4.9 and later give the strings inside `template` elements, and 4.10 and later those inside `rt` and `rp` elements, classes of their own that `.text` and `get_text()` skip. So on `<p>a<template>b</template></p>` the model collects "ab\n" where these versions collect "a\n". The stop list already removes `script` and `style`, whose strings are skipped the same way.
- Logging and the `print(prompt)` in `query_in_batches` (`src/question_generator.py:63`) are output only.
- `openai_test`, `html_test`, `pypdf_test`, `pymupdf_test` and the `__main__` blocks are manual test drivers.
- `src/main.py`, `src/vector_db.py` and `src/embeddings_calculator.py` are not part of this model. They are the HTTP routes, the vector store and the embedding model. The UI and server files are not part of this model either.
