/** The string handling of the text extractors. Opening the PDF and reading
    a page's text, and parsing the Word document, are library calls and
    are not modelled: a PDF is given as the sequence of its pages' texts,
    a Word document as the sequence of its paragraphs' texts. */
module Extract {
  import opened Seqs
  import opened Whitespace
  import opened Replace

  /** `page_text.replace("-\n", "")`: a word hyphenated across a line
      break is joined back together. */
  function Dehyphen(page: string): string
  {
    ReplaceAll(page, "-\n", "")
  }

  /** What one kept page adds to the text: its dehyphenated text with the
      whitespace collapsed, then a blank line. */
  function PageBlock(page: string): string
  {
    Collapse(Dehyphen(page)) + "\n\n"
  }

  /** The words a page contributes once its hyphenated line breaks are
      joined. */
  function PageWords(page: string): seq<string>
  {
    Words(Dehyphen(page))
  }

  /** The pages with index `lo <= i < hi` that exist, in order. */
  function PagesBetween(pages: seq<string>, lo: nat, hi: int): (kept: seq<string>)
    ensures |kept| <= |pages|
    ensures forall k :: 0 <= k < |kept| ==> lo + k < hi && lo + k < |pages| && kept[k] == pages[lo + k]
    ensures |kept| > 0 ==> lo + |kept| == (if hi < |pages| then hi else |pages|)
    ensures |kept| == 0 ==> hi <= lo || |pages| <= lo
  {
    var top := if hi < |pages| then hi else |pages|;
    if lo < top then pages[lo..top] else []
  }

  /** The page indices `range(start - 1, end)` visits, less those past the
      last page, as 0-based indices. */
  function KeptPages(pages: seq<string>, start: int, end: int): seq<string>
    requires start >= 1
  {
    PagesBetween(pages, start - 1, end)
  }

  lemma PagesBetweenStep(pages: seq<string>, lo: nat, i: int)
    requires lo <= i
    ensures i < |pages| ==> PagesBetween(pages, lo, i + 1) == PagesBetween(pages, lo, i) + [pages[i]]
    ensures i >= |pages| ==> PagesBetween(pages, lo, i + 1) == PagesBetween(pages, lo, i)
  {
  }

  /** The words of the accumulated text are the pages' words, page after
      page: the collapsing and the blank lines only change whitespace. */
  lemma {:induction false} BlocksWords(kept: seq<string>)
    ensures Words(Blocks(kept)) == Flatten(Map(PageWords, kept))
    decreases |kept|
  {
    if kept != [] {
      BlocksCons(kept);
      FlattenMapCons(PageWords, kept);
      BlocksWords(kept[1..]);
      BlockWords(kept[0], Blocks(kept[1..]));
    }
  }

  lemma BlocksCons(kept: seq<string>)
    requires kept != []
    ensures Blocks(kept) == PageBlock(kept[0]) + Blocks(kept[1..])
  {
    assert Map(PageBlock, kept) == [PageBlock(kept[0])] + Map(PageBlock, kept[1..]);
  }

  /** A page's block adds the page's words and ends in whitespace. */
  lemma BlockWords(page: string, rest: string)
    ensures Words(PageBlock(page) + rest) == PageWords(page) + Words(rest)
  {
    var c := Collapse(Dehyphen(page));
    assert PageBlock(page) + rest == c + ['\n'] + (['\n'] + rest);
    WordsSplitAt(c, '\n', ['\n'] + rest);
    SkipSpace('\n', rest);
    CollapseKeepsWords(Dehyphen(page));
  }

  lemma SkipSpace(c: char, rest: string)
    requires IsSpace(c)
    ensures Words([c] + rest) == Words(rest)
  {
    assert ([c] + rest)[1..] == rest;
  }

  /** `extract_text_pdf(file, start, end)` over the pages' texts. `start`
      is at least 1, as the page-number input guarantees; `end` may be
      anything, and pages past the last one are skipped. The result is the
      kept pages' blocks in page order with the outer whitespace stripped:
      it holds the pages' words in page order, hyphenated line breaks
      joined, and neither starts nor ends with whitespace. */
  method ExtractTextPdf(pages: seq<string>, start: int, end: int) returns (text: string)
    requires start >= 1
    ensures text == Strip(Blocks(KeptPages(pages, start, end)))
    ensures Words(text) == Flatten(Map(PageWords, KeptPages(pages, start, end)))
    ensures text == [] || (!IsSpace(text[0]) && !IsSpace(text[|text| - 1]))
  {
    var acc := "";
    var i := start - 1;
    ghost var kept: seq<string> := [];
    while i < end
      invariant start - 1 <= i && (i <= end || i == start - 1)
      invariant kept == PagesBetween(pages, start - 1, i)
      invariant acc == Blocks(kept)
    {
      PagesBetweenStep(pages, start - 1, i);
      if i < |pages| {
        BlocksSnoc(kept, pages[i]);
        acc := acc + PageBlock(pages[i]);
        kept := kept + [pages[i]];
      }
      i := i + 1;
    }
    assert kept == KeptPages(pages, start, end);
    text := Strip(acc);
    StrippedBlocks(kept);
  }

  /** The text accumulated over the pages `kept`, before stripping. */
  function Blocks(kept: seq<string>): string
  {
    Flatten(Map(PageBlock, kept))
  }

  /** Visiting one more page appends its block. */
  lemma BlocksSnoc(kept: seq<string>, page: string)
    ensures Blocks(kept + [page]) == Blocks(kept) + PageBlock(page)
  {
    MapAppend(PageBlock, kept, [page]);
    assert Map(PageBlock, [page]) == [PageBlock(page)];
    FlattenAppend(Map(PageBlock, kept), [PageBlock(page)]);
    assert Flatten([PageBlock(page)]) == PageBlock(page) + Flatten([PageBlock(page)][1..]);
  }

  /** The stripped text keeps the pages' words and has no whitespace at
      either end. */
  lemma StrippedBlocks(kept: seq<string>)
    ensures Words(Strip(Blocks(kept))) == Flatten(Map(PageWords, kept))
    ensures var t := Strip(Blocks(kept)); t == [] || (!IsSpace(t[0]) && !IsSpace(t[|t| - 1]))
  {
    StripKeepsWords(Blocks(kept));
    BlocksWords(kept);
    var pre, post := StripMargins(Blocks(kept));
  }

  /** Whether `p.text.strip()` is non-empty. */
  predicate HasText(paragraph: string)
  {
    Strip(paragraph) != []
  }

  /** The paragraphs with some non-whitespace text, in order. */
  function TextParagraphs(paragraphs: seq<string>): (r: seq<string>)
    ensures |r| <= |paragraphs|
    ensures forall k :: 0 <= k < |r| ==> HasText(r[k])
  {
    if paragraphs == [] then []
    else if HasText(paragraphs[0]) then [paragraphs[0]] + TextParagraphs(paragraphs[1..])
    else TextParagraphs(paragraphs[1..])
  }

  /** One paragraph is kept exactly when it has text. */
  lemma TextParagraphsOne(paragraph: string)
    ensures TextParagraphs([paragraph]) == if HasText(paragraph) then [paragraph] else []
  {
    assert [paragraph][1..] == [];
  }

  /** The filter works paragraph by paragraph and keeps their order: the
      kept paragraphs of `a + b` are those of `a` followed by those of `b`.
      With `TextParagraphsOne` this says the result is exactly the
      paragraphs with text, in document order. */
  lemma {:induction false} TextParagraphsAppend(a: seq<string>, b: seq<string>)
    ensures TextParagraphs(a + b) == TextParagraphs(a) + TextParagraphs(b)
    decreases |a|
  {
    if a == [] {
      assert a + b == b;
    } else {
      assert (a + b)[0] == a[0] && (a + b)[1..] == a[1..] + b;
      TextParagraphsAppend(a[1..], b);
    }
  }

  /** `extract_text_docx(file)` over the paragraphs' texts: the paragraphs
      with text, one per line. */
  function ExtractTextDocx(paragraphs: seq<string>): string
  {
    JoinWith("\n", TextParagraphs(paragraphs))
  }

  /** A paragraph is skipped exactly when it has no words. */
  lemma HasTextIff(paragraph: string)
    ensures HasText(paragraph) <==> Words(paragraph) != []
  {
    StripKeepsWords(paragraph);
    WordsEmptyIff(Strip(paragraph));
    var pre, post := StripMargins(paragraph);
    if Strip(paragraph) != [] {
      assert !IsSpace(Strip(paragraph)[0]);
    }
  }

  /** Dropping the blank paragraphs and putting the rest on lines of their
      own loses no word: the document's words are its paragraphs' words,
      paragraph after paragraph. */
  lemma {:induction false} DocxWords(paragraphs: seq<string>)
    ensures Words(ExtractTextDocx(paragraphs)) == Flatten(Map(Words, paragraphs))
    decreases |paragraphs|
  {
    if paragraphs != [] {
      var p := paragraphs[0];
      DocxWords(paragraphs[1..]);
      HasTextIff(p);
      assert Map(Words, paragraphs) == [Words(p)] + Map(Words, paragraphs[1..]);
      var rest := TextParagraphs(paragraphs[1..]);
      if HasText(p) && rest != [] {
        assert JoinWith("\n", [p] + rest) == p + ['\n'] + JoinWith("\n", rest);
        WordsSplitAt(p, '\n', JoinWith("\n", rest));
      } else if HasText(p) {
        assert JoinWith("\n", [p] + rest) == p;
      }
    }
  }
}
