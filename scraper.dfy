/**
  The stand-alone page reader of `scraper.py`: every script and style element
  is cut out of the parsed page, the remaining text is taken, and it is
  normalised to one stripped, non-empty line per line of text.
 */
module Scraper {
  import opened HtmlTree
  import opened PyStr

  /** The tags cut out before the text is taken. */
  const ScriptAndStyle: set<string> := {"script", "style"}

  /**
    `(line.strip() for line in lines)` filtered by `if line`: each line
    stripped, in order, with the lines that strip to "" dropped.
   */
  function StrippedLines(lines: seq<string>): (kept: seq<string>)
    ensures |kept| <= |lines|
    ensures |lines| == 1 ==> kept == if AllSpace(lines[0]) then [] else [Strip(lines[0])]
    ensures forall k :: 0 <= k < |kept| ==> IsStrippedLine(kept[k])
    ensures (forall k :: 0 <= k < |lines| ==> NoLineBreak(lines[k])) ==>
              forall k :: 0 <= k < |kept| ==> NoLineBreak(kept[k])
    ensures kept == [] <==> EveryLineSpace(lines)
  {
    if lines == [] then []
    else
      var line := Strip(lines[0]);
      EveryLineSpaceCons(lines[0], lines[1..]);
      assert lines == [lines[0]] + lines[1..];
      (if line == "" then [] else [line]) + StrippedLines(lines[1..])
  }

  /**
    The lines of two texts are filtered independently and stay in order; with
    the single-line case of `StrippedLines` this determines it.
   */
  lemma {:induction false} StrippedLinesAppend(a: seq<string>, b: seq<string>)
    ensures StrippedLines(a + b) == StrippedLines(a) + StrippedLines(b)
  {
    if a == [] {
      assert a + b == b;
    } else {
      var line := Strip(a[0]);
      var own := if line == "" then [] else [line];
      assert (a + b)[0] == a[0];
      assert (a + b)[1..] == a[1..] + b;
      assert StrippedLines(a + b) == own + StrippedLines(a[1..] + b);
      StrippedLinesAppend(a[1..], b);
    }
  }

  /** Lines that are already stripped and non-empty are kept as they are. */
  lemma {:induction false} StrippedLinesOfStripped(lines: seq<string>)
    requires forall k :: 0 <= k < |lines| ==> IsStrippedLine(lines[k])
    ensures StrippedLines(lines) == lines
  {
    if lines != [] {
      StripStrippedLine(lines[0]);
      StrippedLinesOfStripped(lines[1..]);
    }
  }

  /**
    Lines 22-23 of `get_text_from_url`: strip every line, drop the empty ones,
    join with "\n". The result is empty exactly when the text holds nothing but
    whitespace; otherwise it neither starts nor ends with whitespace, and its
    only line boundaries are single "\n"s with a non-whitespace character on
    either side: there are no blank lines and no indentation left.
   */
  function Normalise(text: string): (r: string)
    ensures r == "" <==> AllSpace(text)
    ensures r == [] || (!IsSpace(r[0]) && !IsSpace(r[|r| - 1]))
    ensures forall i :: 0 <= i < |r| && IsLineBreak(r[i]) ==>
              r[i] == '\n' && 0 < i < |r| - 1 && !IsSpace(r[i - 1]) && !IsSpace(r[i + 1])
  {
    var lines := StrippedLines(SplitLines(text));
    JoinedLinesShape(lines);
    JoinEmpty("\n", lines);
    SplitLinesAllSpace(text);
    Join("\n", lines)
  }

  /**
    `get_text_from_url` on the parsed page: the scripts and styles are
    extracted in place, then the whole remaining text is normalised.
   */
  method GetTextFromUrl(soup: seq<Node>) returns (text: string)
    requires DistinctIds(soup)
    ensures text == Normalise(ForestText(Prune(soup, ScriptAndStyle)))
    ensures text == Normalise(VisibleText(soup, ScriptAndStyle))
  {
    var page := DetachAll(soup, ScriptAndStyle);
    var raw := ForestText(page);
    var lines := StrippedLines(SplitLines(raw));
    text := Join("\n", lines);
    PrunedTextIsVisible(soup, ScriptAndStyle);
  }

  /**
    Splitting the normalised text again gives exactly the stripped, non-empty
    lines of the original text, in order.
   */
  lemma {:induction false} NormaliseLines(text: string)
    ensures SplitLines(Normalise(text)) == StrippedLines(SplitLines(text))
    ensures forall k :: 0 <= k < |SplitLines(Normalise(text))| ==>
              IsStrippedLine(SplitLines(Normalise(text))[k])
  {
    SplitLinesOfJoin(StrippedLines(SplitLines(text)));
  }

  /** Normalising an already normalised text changes nothing. */
  lemma {:induction false} NormaliseIdempotent(text: string)
    ensures Normalise(Normalise(text)) == Normalise(text)
  {
    NormaliseLines(text);
    StrippedLinesOfStripped(StrippedLines(SplitLines(text)));
  }
}
