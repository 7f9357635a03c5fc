/** The markdown insertion behind the toolbar buttons: the selected text is
    replaced by the button's symbol followed by that text, and by the symbol
    once more when the button wraps. */
module MarkdownInsertion {

  /** What `$getSelection()` yields, as far as the insertion looks at it:
      nothing, a selection that is not a range (a node selection), or a range
      of the document text from `start` up to `end`. */
  datatype Selection = NoSelection | NodeSelection | RangeSelection(start: nat, end: nat)

  /** The document as the insertion sees it: its text and its selection. */
  datatype Document = Document(text: string, selection: Selection)
  {
    predicate Valid()
    {
      selection.RangeSelection? ==> selection.start <= selection.end <= |text|
    }
  }

  /** The string built from the selected text: `symbol + selected + symbol`
      when wrapping, `symbol + selected` otherwise. */
  function MarkdownText(symbol: string, selected: string, wrapText: bool): (r: string)
    ensures |r| == |selected| + (if wrapText then 2 * |symbol| else |symbol|)
    ensures r[..|symbol|] == symbol
    ensures r[|symbol|..|symbol| + |selected|] == selected
    ensures wrapText ==> r[|symbol| + |selected|..] == symbol
  {
    if wrapText then symbol + selected + symbol else symbol + selected
  }

  /** One call of `insertMarkdown(symbol, wrapText)`: without a range
      selection nothing changes; otherwise the selected range is replaced by
      the built string and the caret ends right after it. */
  function Insert(d: Document, symbol: string, wrapText: bool): (r: Document)
    requires d.Valid()
    ensures r.Valid()
    ensures !d.selection.RangeSelection? ==> r == d
    ensures d.selection.RangeSelection? ==>
      var start, end := d.selection.start, d.selection.end;
      var inserted := MarkdownText(symbol, d.text[start..end], wrapText);
      && |r.text| == |d.text| - (end - start) + |inserted|
      && r.text[..start] == d.text[..start]
      && r.text[start..start + |inserted|] == inserted
      && r.text[start + |inserted|..] == d.text[end..]
      && r.selection == RangeSelection(start + |inserted|, start + |inserted|)
  {
    match d.selection
    case RangeSelection(start, end) =>
      var inserted := MarkdownText(symbol, d.text[start..end], wrapText);
      var text := d.text[..start] + inserted + d.text[end..];
      assert text[..start] == d.text[..start];
      assert text[start..start + |inserted|] == inserted;
      assert text[start + |inserted|..] == d.text[end..];
      Document(text, RangeSelection(start + |inserted|, start + |inserted|))
    case _ => d
  }

  /** The selected text survives the insertion: it sits right after the
      first symbol, and with wrapping the symbol follows it again. */
  lemma InsertKeepsSelectedText(d: Document, symbol: string, wrapText: bool)
    requires d.Valid() && d.selection.RangeSelection?
    ensures var start, end := d.selection.start, d.selection.end;
      var r := Insert(d, symbol, wrapText);
      var after := start + |symbol| + (end - start);
      && r.text[start..start + |symbol|] == symbol
      && r.text[start + |symbol|..after] == d.text[start..end]
      && (wrapText ==> r.text[after..after + |symbol|] == symbol)
  {
    var start, end := d.selection.start, d.selection.end;
    var r := Insert(d, symbol, wrapText);
    var selected := d.text[start..end];
    var inserted := MarkdownText(symbol, selected, wrapText);
    var piece := r.text[start..start + |inserted|];
    assert piece == inserted;
    assert r.text[start..start + |symbol|] == piece[..|symbol|];
    assert r.text[start + |symbol|..start + |symbol| + |selected|] == piece[|symbol|..|symbol| + |selected|];
    if wrapText {
      assert r.text[start + |symbol| + |selected|..start + |inserted|] == piece[|symbol| + |selected|..];
    }
  }

  /** Putting the selected text back in place of the inserted string gives
      the document text from before the insertion. */
  lemma InsertUndone(d: Document, symbol: string, wrapText: bool)
    requires d.Valid() && d.selection.RangeSelection?
    ensures var start, end := d.selection.start, d.selection.end;
      var r := Insert(d, symbol, wrapText);
      var inserted := MarkdownText(symbol, d.text[start..end], wrapText);
      r.text[..start] + d.text[start..end] + r.text[start + |inserted|..] == d.text
  {
    var start, end := d.selection.start, d.selection.end;
    assert d.text == d.text[..start] + d.text[start..end] + d.text[end..];
  }

  /** With a collapsed selection (a caret) the symbols alone are inserted at
      the caret. */
  lemma InsertAtCaret(text: string, caret: nat, symbol: string, wrapText: bool)
    requires caret <= |text|
    ensures Insert(Document(text, RangeSelection(caret, caret)), symbol, wrapText).text
         == text[..caret] + (if wrapText then symbol + symbol else symbol) + text[caret..]
  {
    var d := Document(text, RangeSelection(caret, caret));
    assert text[caret..caret] == [];
    assert MarkdownText(symbol, [], wrapText) == if wrapText then symbol + symbol else symbol;
  }

  /** Bold on the selected word "hi" gives "**hi**" and leaves the caret
      after it. */
  lemma BoldExample()
    ensures Insert(Document("hi", RangeSelection(0, 2)), "**", true) == Document("**hi**", RangeSelection(6, 6))
  {
    var d := Document("hi", RangeSelection(0, 2));
    assert d.text[0..2] == "hi";
    var inserted := MarkdownText("**", "hi", true);
    assert inserted == "**hi**";
    assert d.text[..0] == [] && d.text[2..] == [];
    assert Insert(d, "**", true).text == [] + inserted + [];
  }

  /** The toolbar buttons, in the order they appear. */
  datatype ToolbarButton =
    | Bold | Italic | Heading | Highlight | HorizontalRule | Quote | ListItem | Link | Image

  /** The literal arguments each button passes: the symbol and whether it
      wraps the selection. Only bold, italic and highlight wrap. */
  function ToolbarArguments(b: ToolbarButton): (args: (string, bool))
    ensures args.1 <==> b in {Bold, Italic, Highlight}
    ensures args.0 != []
  {
    match b
    case Bold => ("**", true)
    case Italic => ("_", true)
    case Heading => ("# ", false)
    case Highlight => ("==", true)
    case HorizontalRule => ("*** ", false)
    case Quote => ("> ", false)
    case ListItem => ("- ", false)
    case Link => ("[Text](https://medit.pages.dev/)", false)
    case Image => ("![Alt text](/favicon.ico)", false)
  }
}
