/**
 * `extract_text_from_pdf` of main.py. The PDF itself is parsed by a foreign
 * library; what the function owns is the loop that visits the pages in order
 * and appends each page's extracted text, or "" when the page yields none.
 * A document is therefore given here as the sequence of per-page extraction
 * results, `None` standing for a page whose `extract_text()` returned `None`.
 */
module TextExtractor {
  import opened Wrappers
  import opened SeqFacts

  /** What one page contributes: `page.extract_text() or ""`. */
  function PageText(page: Option<string>): string {
    match page
    case Some(t) => t
    case None => ""
  }

  /** The reference definition of the document text: the text of the first
      page followed by the text of the rest. */
  function DocumentText(pages: seq<Option<string>>): string {
    if |pages| == 0 then "" else PageText(pages[0]) + DocumentText(pages[1..])
  }

  /** Where page `k`'s text starts in the document text. */
  function PageOffset(pages: seq<Option<string>>, k: nat): nat
    requires k <= |pages|
  {
    |DocumentText(pages[..k])|
  }

  /** The sum of the lengths of the pages' texts. */
  function TotalLength(pages: seq<Option<string>>): nat {
    if |pages| == 0 then 0 else |PageText(pages[0])| + TotalLength(pages[1..])
  }

  /** The document text of two runs of pages is the text of the first run
      followed by the text of the second. */
  lemma {:induction false} DocumentTextConcat(a: seq<Option<string>>, b: seq<Option<string>>)
    ensures DocumentText(a + b) == DocumentText(a) + DocumentText(b)
  {
    if |a| == 0 {
      assert a + b == b;
    } else {
      ConcatHeadTail(a, b);
      calc {
        DocumentText(a + b);
        PageText(a[0]) + DocumentText(a[1..] + b);
        { DocumentTextConcat(a[1..], b); }
        PageText(a[0]) + (DocumentText(a[1..]) + DocumentText(b));
        (PageText(a[0]) + DocumentText(a[1..])) + DocumentText(b);
      }
    }
  }

  /** Appending one page to the input appends exactly that page's text to
      the output. */
  lemma DocumentTextAppend(pages: seq<Option<string>>, page: Option<string>)
    ensures DocumentText(pages + [page]) == DocumentText(pages) + PageText(page)
  {
    DocumentTextConcat(pages, [page]);
    assert DocumentText([page]) == PageText(page) + DocumentText([]);
  }

  /** No page's text is lost or altered: the document is exactly as long as
      all the page texts together. */
  lemma {:induction false} DocumentTextLength(pages: seq<Option<string>>)
    ensures |DocumentText(pages)| == TotalLength(pages)
  {
    if |pages| > 0 {
      DocumentTextLength(pages[1..]);
    }
  }

  /** The text of a page between two runs of pages stands between their
      texts. */
  lemma DocumentTextAround(before: seq<Option<string>>, page: Option<string>, after: seq<Option<string>>)
    ensures DocumentText(before + ([page] + after))
            == DocumentText(before) + (PageText(page) + DocumentText(after))
  {
    DocumentTextConcat(before, [page] + after);
    ConcatHeadTail([page], after);
  }

  /** Page order is kept: page `k`'s text stands in the document text,
      unchanged, right after the text of the pages before it. */
  lemma PageTextAt(pages: seq<Option<string>>, k: nat)
    requires k < |pages|
    ensures PageOffset(pages, k) + |PageText(pages[k])| <= |DocumentText(pages)|
    ensures DocumentText(pages)[PageOffset(pages, k)..PageOffset(pages, k) + |PageText(pages[k])|]
            == PageText(pages[k])
  {
    AroundIndex(pages, k);
    DocumentTextAround(pages[..k], pages[k], pages[k + 1..]);
    SliceMiddle(DocumentText(pages[..k]), PageText(pages[k]), DocumentText(pages[k + 1..]));
  }

  /** A page that yields no text (`None` or "") contributes nothing: the
      document text is the same with that page removed. */
  lemma EmptyPageContributesNothing(pages: seq<Option<string>>, k: nat)
    requires k < |pages|
    requires pages[k] == None || pages[k] == Some("")
    ensures DocumentText(pages) == DocumentText(pages[..k] + pages[k + 1..])
  {
    var before, after := pages[..k], pages[k + 1..];
    AroundIndex(pages, k);
    DocumentTextAround(before, pages[k], after);
    assert PageText(pages[k]) + DocumentText(after) == DocumentText(after);
    DocumentTextConcat(before, after);
  }

  /** The loop of `extract_text_from_pdf`: visit the pages by index and
      append each page's text, or "" when it has none, to the accumulator. */
  method ExtractTextFromPdf(pages: seq<Option<string>>) returns (text: string)
    ensures text == DocumentText(pages)
    // a consequence of the line above, spelled out: no pages give ""
    ensures |pages| == 0 ==> text == ""
  {
    text := "";
    var pageNum := 0;
    while pageNum < |pages|
      invariant 0 <= pageNum <= |pages|
      invariant text == DocumentText(pages[..pageNum])
    {
      var page := pages[pageNum];
      // `page.extract_text() or ""`: a falsy result (None or "") becomes ""
      var extracted := if page.Some? && page.value != "" then page.value else "";
      DocumentTextAppend(pages[..pageNum], page);
      PrefixStep(pages, pageNum);
      text := text + extracted;
      pageNum := pageNum + 1;
    }
    assert pages[..pageNum] == pages;
  }
}
