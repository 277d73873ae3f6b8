# ThesisLens report pipeline: the page-text and story-building core

ThesisLens takes an uploaded thesis PDF, extracts its text, asks a hosted
language model for a critique, and renders the critique as a downloadable PDF
report. Almost all of that is foreign: the PDF parser, the model, the
markdown and HTML libraries and the PDF layout engine. What main.py itself
owns are two sequential transforms, and this project models and proves those:

- **Page-text concatenation** (`extract_text_from_pdf`). A document is the
  sequence of per-page extraction results, `Option<string>`, where `None`
  stands for a page whose `extract_text()` returned `None`. The loop appends
  each page's text, or `""` when it has none, in page order
  (`TextExtractor`).
- **Report story builder** (the loop of `save_to_pdf`). The parsed HTML's
  top-level nodes are pairs of a tag name (`None` for a bare text node) and
  the node's serialisation `str(element)`, tags included. Each node's style
  comes from its tag name. A `br` node adds one `Spacer(1, 12)`. Any other
  node's serialisation is split on `'\n'`, and each piece becomes a
  `Paragraph` holding the piece verbatim in that style when `piece.strip()`
  is non-empty, or a `Spacer(1, 12)` when it is blank (`ReportStory`).

The Python string built-ins these rely on (`str.isspace`, `strip()`,
`split('\n')`, with `count` and `join` as reference definitions) are modelled,
with their properties proved, in `PyStr`. `SeqFacts` holds a few generic
sequence lemmas used by the proofs, and `Wrappers` holds `Option`.

Both transforms are methods with loops, proved against recursive reference
functions (`DocumentText`, `Story`). These are built from
`TextExtractor.PageText`, which is `page.extract_text() or ""` (main.py:27),
and `ReportStory.Contribution`, which is one pass of the loop body over a node
(main.py:65-81) and uses `ReportStory.CustomStyle`, the body style set up at
main.py:51-58. The properties are then proved as lemmas about those functions. The inner `for para in paragraphs` loop of
`save_to_pdf` is its own method, `AppendPieces`, which `BuildStory` calls
for every node other than `br`. It appends to the same story sequence, so
the result is the same as the single nested loop of the source.

`save_to_pdf` works on the top-level HTML nodes produced by the markdown
converter: it splits each node's serialisation, tags included, on newlines,
and does no character sanitisation. main.py parses and validates no
structured model response, so none is modelled.

## Model

| member | source | states |
|---|---|---|
| TextExtractor.ExtractTextFromPdf | main.py:22-28 | The loop's result is the in-order concatenation of every page's text, a page giving `None` or `""` contributing `""`; with no pages the result is `""`. |
| TextExtractor.DocumentTextAppend | main.py:25-27 | Appending one page to the input appends exactly that page's text (or nothing for a text-less page) to the output. |
| TextExtractor.DocumentTextConcat | main.py:25-27 | The text of two runs of pages is the first run's text followed by the second's. |
| TextExtractor.DocumentTextLength | main.py:25-27 | The document text is exactly as long as all page texts together: nothing is dropped or added. |
| TextExtractor.DocumentTextAround | main.py:25-27 | A page's text stands between the text of the pages before it and the text of the pages after it. |
| TextExtractor.PageTextAt | main.py:25-27 | Page order is kept: page k's text appears unchanged at the offset given by the length of the text of pages 0..k-1. |
| TextExtractor.EmptyPageContributesNothing | main.py:27 | A page yielding `None` or `""` can be removed without changing the result. |
| PyStr.LStrip | main.py:78 | The result is a suffix of the input; everything removed is whitespace, and the result does not start with whitespace. |
| PyStr.RStrip | main.py:78 | The result is a prefix of the input; everything removed is whitespace, and the result does not end with whitespace. |
| PyStr.Strip | main.py:78 | `piece.strip()` is the piece with only leading and trailing whitespace removed; it is empty exactly when the piece is all whitespace; otherwise it neither starts nor ends with whitespace. |
| PyStr.Split | main.py:76 | `text.split('\n')` has one more piece than the text has newlines (so at least one), and no piece contains a newline. |
| PyStr.JoinSplit | main.py:76 | Rejoining the pieces with `'\n'` gives back the original text. |
| PyStr.SplitJoin | main.py:76 | Splitting a join of newline-free pieces gives back exactly those pieces, so the split is determined by the two facts above. |
| ReportStory.HeadingTagsByLevel | main.py:65-66 | The six listed tags are exactly the tags `h` followed by a digit 1 to 6, and `h1` is exactly the one of level 1. |
| ReportStory.SelectStyle | main.py:51-68 | Level-1 heading gets `Heading1`. Levels 2 to 6 all get `Heading2`. Any other tag, and a bare text node, gets the custom body style (font size 12, leading 14, 10 points after). Each case is stated both ways. |
| ReportStory.PieceItem | main.py:77-81 | A piece becomes a paragraph exactly when it has a non-whitespace character, and then it holds the piece verbatim in the node's style; otherwise it becomes `Spacer(1, 12)`. |
| ReportStory.PieceItems | main.py:77-81 | One item per piece, in the pieces' order, item k being piece k's item. |
| ReportStory.PieceItemsAppend | main.py:77-81 | Appending a piece appends exactly its item. |
| ReportStory.AppendPieces | main.py:76-81 | The inner loop leaves the story extended by exactly the items of the pieces, in order. |
| ReportStory.ContributionShape | main.py:73-81 | A `br` node adds exactly one `Spacer(1, 12)` and no paragraph. Any other node adds exactly one item per newline-separated piece, count of `'\n'` plus one in all, item k being piece k's item. |
| ReportStory.ContributionTexts | main.py:76-79 | A non-`br` node's paragraphs carry, in order, exactly its non-blank pieces, in order; all its pieces, blank ones included, rejoin with newlines into its serialisation. |
| ReportStory.PieceItemsTexts | main.py:77-79 | The paragraph texts of a run of pieces are its non-blank pieces, in order. |
| ReportStory.ContributionWellFormed | main.py:73-81 | Every item a node adds is `Spacer(1, 12)` or a paragraph with non-blank text. |
| ReportStory.StoryConcat | main.py:61-81 | The story of two runs of nodes is the first run's story followed by the second's. |
| ReportStory.StoryAppend | main.py:64-81 | One more node appends exactly that node's contribution to the story. |
| ReportStory.StoryLength | main.py:64-81 | The story has as many items as the nodes contribute: 1 per `br`, newlines plus one for any other node. |
| ReportStory.StoryWellFormed | main.py:74-81 | No paragraph in the story has blank text, and every spacer is 1 by 12. |
| ReportStory.NewlineTextNode | main.py:76-81 | A bare `"\n"` text node yields exactly two spacers. |
| ReportStory.BuildStory | main.py:60-81 | The loop builds exactly the in-order concatenation of the nodes' contributions, with the total item count and well-formedness above. |

## Left out

- The Streamlit interface (title, uploader, button, result display, download button): interactive I/O.
- `gemini_model_interaction` and its long instruction string: a call to a hosted model over the network.
- The PDF parse (`PdfReader`, `BytesIO(file.read())`, `page.extract_text()`): a foreign library. Its per-page results are the model's input.
- The markdown-to-HTML conversion and the HTML parse at the start of `save_to_pdf`: foreign libraries. The parsed top-level nodes are the model's input.
- The `SimpleDocTemplate` set-up, `doc.build(story)` (layout, pagination, fonts), and the rewind of the output buffer: a foreign layout library and I/O. The model stops at the story.
- ReportStory.BuildStory: constructing `Paragraph(para, style)` at main.py:79 parses the piece's markup and may raise, which would abort `save_to_pdf` part-way through the story; the model treats a paragraph as a plain record and assumes that construction always succeeds.
- The attributes of the sample style sheet's `Heading1` and `Heading2` styles: they belong to the layout library, so those two styles are modelled by name only.
- PyStr.IsSpace: stated as the fixed set of characters for which Python 3's `str.isspace()` holds; a Unicode database version in which that set changes is not followed.
- models/metrics_model.py and test.py are not part of this model. The first holds only a prompt and a model call. The second's `extract_text_from_pdf` is the same loop as main.py's, and its response schema is checked only by foreign libraries.
