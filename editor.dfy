/** The editor component: the document that the rich-text editor holds
    (its text and selection), and the component state derived from the
    text, the trimmed markdown and the character total shown below the
    editor. */
module EditorComponent {
  import TextMetrics
  import MarkdownInsertion

  /** The two state hooks the change handler sets: the markdown handed to
      the preview and the number displayed as "Total Words" (which holds
      the character total). */
  datatype ComponentState = ComponentState(markdown: string, wordCount: nat)

  class Editor {
    /** The document: its text content and its current selection. */
    var text: string
    var selection: MarkdownInsertion.Selection
    /** The component state. */
    var state: ComponentState

    /** The selection lies inside the text. */
    predicate Valid()
      reads `text, `selection
    {
      MarkdownInsertion.Document(text, selection).Valid()
    }

    /** An empty editor; the state starts as the empty string and 0. */
    constructor()
      ensures Valid()
      ensures text == [] && selection == MarkdownInsertion.NoSelection
      ensures state == ComponentState([], 0)
    {
      text := [];
      selection := MarkdownInsertion.NoSelection;
      state := ComponentState([], 0);
    }

    /** The change handler, given the text content of the new editor state:
        computes the metrics of the text and stores the trimmed markdown and
        the character total. The total is 0 exactly when the text is
        blank. */
    method HandleEditorChange(content: string)
      modifies `state
      ensures state.markdown == TextMetrics.Trim(content)
      ensures state.wordCount == TextMetrics.TotalCount(state.markdown)
      ensures state.wordCount == 0 <==> TextMetrics.AllWhitespace(content)
    {
      var metrics := TextMetrics.ComputeMetrics(content);
      state := ComponentState(metrics.markdown, metrics.totalCount);
    }

    /** `insertMarkdown(symbol, wrapText)`: without a range selection it
        returns at once; otherwise the selected range is replaced by the
        symbol and the selected text (and the symbol again when wrapping). */
    method InsertMarkdown(symbol: string, wrapText: bool)
      requires Valid()
      modifies `text, `selection
      ensures Valid()
      ensures MarkdownInsertion.Document(text, selection)
           == MarkdownInsertion.Insert(old(MarkdownInsertion.Document(text, selection)), symbol, wrapText)
    {
      if !selection.RangeSelection? {
        return;
      }
      var start, end := selection.start, selection.end;
      var selected := text[start..end];
      var newText := MarkdownInsertion.MarkdownText(symbol, selected, wrapText);
      text := text[..start] + newText + text[end..];
      selection := MarkdownInsertion.RangeSelection(start + |newText|, start + |newText|);
    }

    /** A click on a toolbar button inserts with that button's arguments. */
    method ClickToolbar(b: MarkdownInsertion.ToolbarButton)
      requires Valid()
      modifies `text, `selection
      ensures Valid()
      ensures var args := MarkdownInsertion.ToolbarArguments(b);
        MarkdownInsertion.Document(text, selection)
          == MarkdownInsertion.Insert(old(MarkdownInsertion.Document(text, selection)), args.0, args.1)
    {
      var args := MarkdownInsertion.ToolbarArguments(b);
      InsertMarkdown(args.0, args.1);
    }
  }

  /** Bold on a selected word, followed by the change event: the text reads
      "**hi**" and the total counts the four asterisks. */
  method BoldThenChange() returns (text: string, total: nat)
    ensures text == "**hi**" && total == 6
  {
    var e := new Editor();
    e.text := "hi";
    e.selection := MarkdownInsertion.RangeSelection(0, 2);
    e.ClickToolbar(MarkdownInsertion.Bold);
    MarkdownInsertion.BoldExample();
    e.HandleEditorChange(e.text);
    BoldWord();
    text, total := e.text, e.state.wordCount;
  }

  lemma BoldWord()
    ensures TextMetrics.ComputeMetrics("**hi**").totalCount == 6
  {
    BoldWordCharacters();
    TextMetrics.SingleWordMetrics("**hi**");
    TextMetrics.Utf16LengthBmp("**hi**");
  }

  lemma BoldWordCharacters()
    ensures TextMetrics.NoWhitespace("**hi**")
    ensures forall i :: 0 <= i < |"**hi**"| ==> "**hi**"[i] as int < 0x1_0000
  {
    var s := "**hi**";
    assert !TextMetrics.IsWhitespace('*') && !TextMetrics.IsWhitespace('h') && !TextMetrics.IsWhitespace('i');
    forall i | 0 <= i < |s| ensures !TextMetrics.IsWhitespace(s[i]) && s[i] as int < 0x1_0000 {
      assert s[i] == '*' || s[i] == 'h' || s[i] == 'i';
    }
  }
}
