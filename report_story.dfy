/**
 * The story-building loop of `save_to_pdf` in main.py. The markdown-to-HTML
 * conversion, the HTML parse and the final PDF layout are foreign libraries;
 * the model starts from the parsed top-level nodes and ends with the list of
 * flowables ("the story") handed to the layout engine.
 *
 * A top-level node is its tag name (`None` for a bare text node) and its
 * serialisation `str(element)`, tags included. A story item is a spacer of
 * a given width and height or a paragraph of text in a style.
 */
module ReportStory {
  import opened Wrappers
  import opened PyStr
  import opened SeqFacts

  datatype Alignment = TaLeft

  /** The attributes that `save_to_pdf` sets on its own paragraph style. */
  datatype ParagraphStyle = ParagraphStyle(
    name: string,
    alignment: Alignment,
    fontSize: nat,
    leading: nat,
    spaceAfter: nat,
    preserveWhiteSpace: bool)

  /** The body style: left aligned, 12 point type, 14 point leading, 10
      points after each paragraph, white space preserved. */
  const CustomStyle := ParagraphStyle("Custom", TaLeft, 12, 14, 10, true)

  /** `Heading1` and `Heading2` are the entries of that name in the sample
      style sheet; their attributes belong to the layout library. */
  datatype Style = Heading1 | Heading2 | Custom(paragraphStyle: ParagraphStyle)

  datatype Element = Element(name: Option<string>, serialized: string)

  datatype Item = Spacer(width: int, height: int) | Paragraph(text: string, style: Style)

  /** The vertical gap used for a line break and for a blank line. */
  const BlankSpacer := Spacer(1, 12)

  const HeadingTags: seq<string> := ["h1", "h2", "h3", "h4", "h5", "h6"]

  /** Reference definition of an HTML heading tag: `h` followed by one
      digit from 1 to 6 is a heading of that level; any other tag has
      level 0. */
  function HeadingLevel(tag: string): nat {
    if |tag| == 2 && tag[0] == 'h' && '1' <= tag[1] <= '6' then
      (tag[1] as int) - ('0' as int)
    else 0
  }

  /** The six listed tags are exactly the tags with a heading level, and
      `h1` is exactly the tag of level 1. */
  lemma HeadingTagsByLevel(name: Option<string>)
    ensures name.Some? ==> (name.value in HeadingTags <==> HeadingLevel(name.value) != 0)
    ensures name.Some? ==> (name.value == "h1" <==> HeadingLevel(name.value) == 1)
  {
    if name.Some? {
      var tag := name.value;
      if |tag| == 2 && tag[0] == 'h' && '1' <= tag[1] <= '6' {
        assert tag == ['h', tag[1]];
      }
    }
  }

  /** The style choice: a level-1 heading gets `Heading1`, levels 2 to 6
      all get `Heading2`, and every other node, bare text included, gets
      the custom body style. */
  function SelectStyle(name: Option<string>): (s: Style)
    ensures s == Heading1 <==> name.Some? && HeadingLevel(name.value) == 1
    ensures s == Heading2 <==> name.Some? && 2 <= HeadingLevel(name.value) <= 6
    ensures s.Custom? <==> name.None? || HeadingLevel(name.value) == 0
    ensures s.Custom? ==> s.paragraphStyle == CustomStyle
    ensures s.Custom? ==> s.paragraphStyle.fontSize == 12 && s.paragraphStyle.leading == 14
                          && s.paragraphStyle.spaceAfter == 10
  {
    HeadingTagsByLevel(name);
    if name.Some? && name.value in HeadingTags then
      if name.value == "h1" then Heading1 else Heading2
    else Custom(CustomStyle)
  }

  /** What one newline-separated piece becomes: a paragraph holding the
      piece verbatim when it has a non-whitespace character, otherwise the
      blank spacer. */
  function PieceItem(piece: string, style: Style): (item: Item)
    ensures item.Paragraph? <==> exists k :: 0 <= k < |piece| && !IsSpace(piece[k])
    ensures item.Paragraph? ==> item == Paragraph(piece, style)
    ensures item.Spacer? ==> item == BlankSpacer
  {
    if Strip(piece) != "" then Paragraph(piece, style) else BlankSpacer
  }

  /** The items for the pieces of one node, in the pieces' order. */
  function PieceItems(pieces: seq<string>, style: Style): (items: seq<Item>)
    ensures |items| == |pieces|
    ensures forall k :: 0 <= k < |pieces| ==> items[k] == PieceItem(pieces[k], style)
  {
    if |pieces| == 0 then [] else [PieceItem(pieces[0], style)] + PieceItems(pieces[1..], style)
  }

  /** Appending a piece appends exactly its item. */
  lemma {:induction false} PieceItemsAppend(pieces: seq<string>, piece: string, style: Style)
    ensures PieceItems(pieces + [piece], style) == PieceItems(pieces, style) + [PieceItem(piece, style)]
  {
    if |pieces| == 0 {
      assert pieces + [piece] == [piece];
    } else {
      ConcatHeadTail(pieces, [piece]);
      PieceItemsAppend(pieces[1..], piece, style);
      AppendAssoc([PieceItem(pieces[0], style)], PieceItems(pieces[1..], style), [PieceItem(piece, style)]);
    }
  }

  /** What one top-level node adds to the story. */
  function Contribution(e: Element): seq<Item> {
    if e.name == Some("br") then [BlankSpacer]
    else PieceItems(Split(e.serialized, '\n'), SelectStyle(e.name))
  }

  /** The reference definition of the story: the contribution of the first
      node followed by the story of the rest. */
  function Story(soup: seq<Element>): seq<Item> {
    if |soup| == 0 then [] else Contribution(soup[0]) + Story(soup[1..])
  }

  /** The number of items a node contributes. */
  function ItemCount(e: Element): nat {
    if e.name == Some("br") then 1 else Count(e.serialized, '\n') + 1
  }

  function TotalItemCount(soup: seq<Element>): nat {
    if |soup| == 0 then 0 else ItemCount(soup[0]) + TotalItemCount(soup[1..])
  }

  /** A story item as the builder may emit it: a 1 by 12 spacer, or a
      paragraph whose text is not blank. */
  ghost predicate WellFormedItem(item: Item) {
    match item
    case Spacer(w, h) => w == 1 && h == 12
    case Paragraph(t, _) => exists k :: 0 <= k < |t| && !IsSpace(t[k])
  }

  /** The texts of the paragraphs among `items`, in order. */
  function ParagraphTexts(items: seq<Item>): seq<string> {
    if |items| == 0 then []
    else (if items[0].Paragraph? then [items[0].text] else []) + ParagraphTexts(items[1..])
  }

  /** The pieces that hold a non-whitespace character, in order. */
  function NonBlankPieces(pieces: seq<string>): seq<string> {
    if |pieces| == 0 then []
    else (if Strip(pieces[0]) != "" then [pieces[0]] else []) + NonBlankPieces(pieces[1..])
  }

  /** A `br` node contributes exactly one 1 by 12 spacer and no paragraph.
      Any other node contributes one item per newline-separated piece of its
      serialisation (one more than the number of newlines in it): the
      piece's paragraph in the node's style, or the blank spacer. */
  lemma ContributionShape(e: Element)
    ensures e.name == Some("br") ==> Contribution(e) == [Spacer(1, 12)]
    ensures e.name != Some("br") ==>
      var pieces := Split(e.serialized, '\n');
      |Contribution(e)| == Count(e.serialized, '\n') + 1
      && |Contribution(e)| == |pieces|
      && forall k :: 0 <= k < |pieces| ==>
           Contribution(e)[k] == PieceItem(pieces[k], SelectStyle(e.name))
    ensures |Contribution(e)| == ItemCount(e)
  {
  }

  /** The paragraphs of a non-`br` node carry exactly its non-blank pieces,
      in order; all its pieces, blank ones included, rejoin with newlines
      into its serialisation. */
  lemma {:induction false} ContributionTexts(e: Element)
    requires e.name != Some("br")
    ensures ParagraphTexts(Contribution(e)) == NonBlankPieces(Split(e.serialized, '\n'))
    ensures Join(Split(e.serialized, '\n'), '\n') == e.serialized
  {
    PieceItemsTexts(Split(e.serialized, '\n'), SelectStyle(e.name));
    JoinSplit(e.serialized, '\n');
  }

  lemma {:induction false} PieceItemsTexts(pieces: seq<string>, style: Style)
    ensures ParagraphTexts(PieceItems(pieces, style)) == NonBlankPieces(pieces)
  {
    if |pieces| > 0 {
      var items := PieceItems(pieces, style);
      PieceItemsTexts(pieces[1..], style);
      assert items[1..] == PieceItems(pieces[1..], style);
    }
  }

  /** The story of two runs of nodes is the story of the first run followed
      by the story of the second. */
  lemma {:induction false} StoryConcat(a: seq<Element>, b: seq<Element>)
    ensures Story(a + b) == Story(a) + Story(b)
  {
    if |a| == 0 {
      assert a + b == b;
    } else {
      ConcatHeadTail(a, b);
      calc {
        Story(a + b);
        Contribution(a[0]) + Story(a[1..] + b);
        { StoryConcat(a[1..], b); }
        Contribution(a[0]) + (Story(a[1..]) + Story(b));
        (Contribution(a[0]) + Story(a[1..])) + Story(b);
      }
    }
  }

  /** Appending a node to the input appends exactly its contribution. */
  lemma StoryAppend(soup: seq<Element>, e: Element)
    ensures Story(soup + [e]) == Story(soup) + Contribution(e)
  {
    StoryConcat(soup, [e]);
    assert Story([e]) == Contribution(e) + Story([]);
  }

  /** The story has exactly as many items as the nodes contribute together. */
  lemma {:induction false} StoryLength(soup: seq<Element>)
    ensures |Story(soup)| == TotalItemCount(soup)
  {
    if |soup| > 0 {
      ContributionShape(soup[0]);
      StoryLength(soup[1..]);
    }
  }

  /** Every item that one node contributes is a 1 by 12 spacer or a
      paragraph with non-blank text. */
  lemma ContributionWellFormed(e: Element)
    ensures forall k :: 0 <= k < |Contribution(e)| ==> WellFormedItem(Contribution(e)[k])
  {
    var c := Contribution(e);
    forall k | 0 <= k < |c| ensures WellFormedItem(c[k]) {
      if e.name != Some("br") {
        var pieces := Split(e.serialized, '\n');
        assert c[k] == PieceItem(pieces[k], SelectStyle(e.name));
      }
    }
  }

  /** No paragraph of the story has blank text, and every spacer of the
      story is 1 by 12. */
  lemma {:induction false} StoryWellFormed(soup: seq<Element>)
    ensures forall k :: 0 <= k < |Story(soup)| ==> WellFormedItem(Story(soup)[k])
  {
    if |soup| > 0 {
      var c, rest := Contribution(soup[0]), Story(soup[1..]);
      ContributionWellFormed(soup[0]);
      StoryWellFormed(soup[1..]);
      assert Story(soup) == c + rest;
      forall k | 0 <= k < |c + rest| ensures WellFormedItem((c + rest)[k]) {
        if k < |c| {
          assert (c + rest)[k] == c[k];
        } else {
          assert (c + rest)[k] == rest[k - |c|];
        }
      }
    }
  }

  /** A bare text node holding only a newline yields two spacers. */
  lemma NewlineTextNode()
    ensures Story([Element(None, "\n")]) == [BlankSpacer, BlankSpacer]
  {
    var e := Element(None, "\n");
    assert "\n"[1..] == "";
    assert Split("", '\n') == [""];
    assert Split("\n", '\n') == [""] + [""];
    assert Strip("") == "";
    assert PieceItems([""], Custom(CustomStyle)) == [BlankSpacer];
    assert PieceItems(["", ""], Custom(CustomStyle)) == [BlankSpacer, BlankSpacer];
    assert Story([e]) == Contribution(e) + Story([]);
  }

  /** The inner loop of `save_to_pdf`, over the newline-separated pieces of
      one node: a piece with content is appended as a paragraph in the
      node's style, a blank one as a 1 by 12 spacer. */
  method AppendPieces(story: seq<Item>, paragraphs: seq<string>, style: Style)
    returns (extended: seq<Item>)
    ensures extended == story + PieceItems(paragraphs, style)
  {
    extended := story;
    var j := 0;
    while j < |paragraphs|
      invariant 0 <= j <= |paragraphs|
      invariant extended == story + PieceItems(paragraphs[..j], style)
    {
      var para := paragraphs[j];
      ghost var done := PieceItems(paragraphs[..j], style);
      if Strip(para) != "" {
        extended := extended + [Paragraph(para, style)];
      } else {
        extended := extended + [Spacer(1, 12)];
      }
      AppendAssoc(story, done, [PieceItem(para, style)]);
      PieceItemsAppend(paragraphs[..j], para, style);
      PrefixStep(paragraphs, j);
      j := j + 1;
    }
    assert paragraphs[..j] == paragraphs;
  }

  /** The story-building loop of `save_to_pdf`: for each top-level node
      choose its style; a `br` appends one spacer, any other node has its
      serialisation split on newlines and its pieces appended by
      `AppendPieces`. */
  method BuildStory(soup: seq<Element>) returns (story: seq<Item>)
    ensures story == Story(soup)
    ensures |story| == TotalItemCount(soup)
    ensures forall k :: 0 <= k < |story| ==> WellFormedItem(story[k])
  {
    story := [];
    var i := 0;
    while i < |soup|
      invariant 0 <= i <= |soup|
      invariant story == Story(soup[..i])
    {
      var element := soup[i];
      var style := SelectStyle(element.name);
      var text := element.serialized;
      if element.name == Some("br") {
        story := story + [Spacer(1, 12)];
      } else {
        var paragraphs := Split(text, '\n');
        story := AppendPieces(story, paragraphs, style);
      }
      StoryAppend(soup[..i], element);
      PrefixStep(soup, i);
      i := i + 1;
    }
    assert soup[..i] == soup;
    StoryLength(soup);
    StoryWellFormed(soup);
  }
}
