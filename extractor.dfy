/** The text clean-up at the end of `scrape_content` in search_app.py: the
    page's paragraphs (the first thirty, each stripped, space-joined) or, when
    it has none, the whole text of its main region; whitespace runs collapsed
    to one space; the ends stripped; the result cut to 8000 characters. The
    request and the HTML parsing are outside the model: a page arrives as the
    texts the parser found in it. */
module Extractor {
  import opened Text

  const MaxParagraphs := 30
  const MaxChars := 8000

  /** A fetched page: the request or the parse raised (the bare `except`
      turns both into an empty string), or the texts of the `<p>` elements of
      the main region and the text of the region itself. */
  datatype PageContent =
    | Unreachable
    | Parsed(paragraphs: seq<string>, regionText: string)

  /** The text before clean-up: the first thirty paragraphs, stripped and
      joined with single spaces, or the region's text when there are no
      paragraphs. */
  function RawText(paragraphs: seq<string>, regionText: string): string
  {
    if paragraphs != [] then JoinSpaced(StripAll(Take(paragraphs, MaxParagraphs))) else regionText
  }

  /** What `scrape_content` returns for the page. */
  function ExtractText(page: PageContent): (r: string)
    ensures |r| <= MaxChars
    ensures page.Unreachable? ==> r == []
    ensures page.Parsed? ==> r <= NormalizeSpace(RawText(page.paragraphs, page.regionText))
    ensures page.Parsed? ==>
      var text := NormalizeSpace(RawText(page.paragraphs, page.regionText));
      (|text| <= MaxChars ==> r == text) && (|text| > MaxChars ==> |r| == MaxChars)
  {
    match page
    case Unreachable => []
    case Parsed(paragraphs, regionText) =>
      var text := NormalizeSpace(RawText(paragraphs, regionText));
      if text == [] then [] else Take(text, MaxChars)
  }

  /** The words of the text before clean-up: those of the first thirty
      paragraphs in order, or those of the region's text. */
  function RawWords(paragraphs: seq<string>, regionText: string): seq<string>
  {
    if paragraphs != [] then WordsOf(Take(paragraphs, MaxParagraphs)) else Words(regionText)
  }

  /** The cleaned text is the words of the page joined by single spaces. */
  lemma CleanIsJoinedWords(paragraphs: seq<string>, regionText: string)
    ensures NormalizeSpace(RawText(paragraphs, regionText)) == JoinSpaced(RawWords(paragraphs, regionText))
  {
    var raw := RawText(paragraphs, regionText);
    NormalizeIsJoinOfWords(raw);
    if paragraphs != [] {
      var kept := Take(paragraphs, MaxParagraphs);
      WordsOfJoin(StripAll(kept), " ");
      WordsOfStripAll(kept);
    }
  }

  /** The extracted text is the page's words, single-spaced, cut at 8000
      characters: all of them when they fit, the first 8000 characters otherwise. */
  lemma ExtractIsWords(paragraphs: seq<string>, regionText: string)
    ensures var r := ExtractText(Parsed(paragraphs, regionText));
      var joined := JoinSpaced(RawWords(paragraphs, regionText));
      && r <= joined
      && (|joined| <= MaxChars ==> r == joined)
      && (|joined| > MaxChars ==> |r| == MaxChars)
  {
    CleanIsJoinedWords(paragraphs, regionText);
  }

  /** A space-join of non-empty words is empty only when there are no words. */
  lemma JoinSpacedEmpty(ws: seq<string>)
    requires AllWords(ws)
    ensures JoinSpaced(ws) == [] <==> ws == []
  {
    if |ws| > 1 {
      assert JoinSpaced(ws) == ws[0] + " " + JoinSpaced(ws[1..]);
    }
  }

  /** The result is empty exactly when the page could not be fetched or its
      text holds no word. */
  lemma ExtractEmpty(page: PageContent)
    ensures ExtractText(page) == [] <==>
      page.Unreachable? || Words(RawText(page.paragraphs, page.regionText)) == []
  {
    if page.Parsed? {
      var raw := RawText(page.paragraphs, page.regionText);
      NormalizeIsJoinOfWords(raw);
      WordsAreWords(raw, []);
      JoinSpacedEmpty(Words(raw));
    }
  }

  /** The result never starts with whitespace and has no whitespace other
      than single spaces; it ends with a non-space unless it was cut. */
  lemma ExtractShape(page: PageContent)
    ensures var r := ExtractText(page);
      && (r == [] || !IsSpace(r[0]))
      && SingleSpaced(r)
      && (|r| < MaxChars ==> Normalized(r))
      && (page.Parsed? && |NormalizeSpace(RawText(page.paragraphs, page.regionText))| <= MaxChars ==> Normalized(r))
  {
    if page.Parsed? {
      var text := NormalizeSpace(RawText(page.paragraphs, page.regionText));
      NormalizeSpaceNormalized(RawText(page.paragraphs, page.regionText));
      var r := ExtractText(page);
      if r != [] {
        assert r[0] == text[0];
        SingleSpacedSlice(text, 0, |r|);
        assert text[..|r|] == r;
      }
    }
  }
}
