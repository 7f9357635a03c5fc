# Markdown editor pipeline: metrics, toolbar insertion and preview cleanup

This project models the core of a browser markdown editor built on a
rich-text editor component. There are three parts, each with its own module.

- **Change handler (`TextMetrics`, `EditorComponent`).** On every change the
  editor's text is trimmed and stored as the markdown. The text is split into
  words. The number shown under "Total Words" is then computed. It is the count
  of non-whitespace UTF-16 code units plus one separator for every word after
  the first.
- **Toolbar insertion (`MarkdownInsertion`, `EditorComponent`).**
  `insertMarkdown(symbol, wrapText)` does nothing unless the selection is a
  range. Otherwise it replaces the selected text with `symbol + text`, or with
  `symbol + text + symbol` when wrapping. The caret ends after the inserted
  text. Each of the nine toolbar buttons passes fixed literal arguments.
- **Preview cleanup (`Rendering`).** The converted HTML has every `<p>` and
  `</p>` removed. Then every `==…==` on one line becomes `<mark>…</mark>`,
  using the global lazy regular expression `==(.*?)==`. The result goes
  through the sanitizer before it is displayed.

The pure parts are functions: trimming, splitting, the count, the built
string, the regular-expression replacements and the preview. Each comes with
lemmas stating what it means; for the preview they show that the tag removal
runs before the highlight and that the sanitizer runs last.

The component is a class, `Editor`, whose methods update its fields in place:

- `text` and `selection` are the document held by the rich-text editor;
- `state` holds the two React state values, the markdown and the count.

Whitespace is the set ECMAScript uses for `trim`, `\s` and `\s+`: WhiteSpace
plus LineTerminator, 25 characters. `.length` counts UTF-16 code units, so a
character outside the Basic Multilingual Plane adds 2 to the total. Every
whitespace character, `=`, `<` and every line terminator is a single code
unit, so nothing else depends on the encoding.

The count is computed on the trimmed text in src/App.jsx:64-69. A plain
description would call it a count of characters. The code counts UTF-16
code units, and the model follows the code.

## Model

| member | source | states |
|---|---|---|
| TextMetrics.Trim | src/App.jsx:64 | the result has no whitespace at either end and is no longer than the input |
| TextMetrics.TrimShape | src/App.jsx:64 | the input is a whitespace prefix, then the trimmed text as a contiguous slice, then a whitespace suffix |
| TextMetrics.TrimBlank | src/App.jsx:64 | trimming removes no non-whitespace character, and the trimmed text is empty exactly when the input is blank |
| TextMetrics.StripWhitespace | src/App.jsx:69 | `replace(/\s/g, "")` leaves no whitespace and never lengthens the text |
| TextMetrics.Utf16Length | src/App.jsx:69 | `.length` lies between the number of characters and twice that number |
| TextMetrics.Split | src/App.jsx:66 | `split(/\s+/)` returns at least one piece and no piece contains whitespace |
| TextMetrics.Words | src/App.jsx:66 | after `filter(Boolean)` every word is non-empty and whitespace-free |
| TextMetrics.ConcatSplit | src/App.jsx:66 | the pieces of the split, joined, are exactly the non-whitespace characters of the text, in order |
| TextMetrics.WordsJoinToNonWhitespace | src/App.jsx:66 | the words, joined, are exactly the non-whitespace characters of the text, in order |
| TextMetrics.WordCountIsWordStarts | src/App.jsx:66-67 | the word count equals an independent count of the positions where a non-whitespace character follows whitespace or the start |
| TextMetrics.SplitCollapsesRun | src/App.jsx:66 | two adjacent whitespace characters split exactly like one |
| TextMetrics.TotalCount | src/App.jsx:66-69 | the total never exceeds the text's `.length` |
| TextMetrics.TotalCountBound | src/App.jsx:68-69 | non-whitespace units plus one separator per word boundary never exceed the text's `.length` |
| TextMetrics.BlankIffNoWords | src/App.jsx:66-67 | there are no words exactly when the text is blank |
| TextMetrics.BlankIffZeroTotal | src/App.jsx:68-69 | the total is 0 exactly when the text is blank |
| TextMetrics.WhitespaceRunCountsOnce | src/App.jsx:66-69 | replacing one separator by two whitespace characters does not change the total |
| TextMetrics.ComputeMetrics | src/App.jsx:62-72 | the markdown is the trimmed text, the word count is that of the markdown, the total is at most its length, and both are 0 exactly when the content is blank |
| TextMetrics.EmptyTextExample | src/App.jsx:62-72 | the empty text gives markdown "", 0 words and total 0 |
| TextMetrics.SingleSpaceExample | src/App.jsx:62-72 | "a b" gives 2 words and total 3 |
| TextMetrics.DoubleSpaceExample | src/App.jsx:62-72 | "a  b" gives 2 words and total 3, the same as "a b" |
| TextMetrics.SingleWordMetrics | src/App.jsx:62-72 | a non-empty text without whitespace is kept as it is, is one word, and its total is its `.length` |
| TextMetrics.Utf16LengthBmp | src/App.jsx:69 | for text made only of Basic Multilingual Plane characters, `.length` is the number of characters |
| EditorComponent.Editor.HandleEditorChange | src/App.jsx:62-72 | sets the markdown to the trimmed content and the count to the total of that markdown; the count is 0 exactly when the content is blank |
| EditorComponent.Editor.constructor | src/App.jsx:34-35 | an empty document with no selection; the markdown starts as "" and the count as 0 |
| MarkdownInsertion.MarkdownText | src/App.jsx:95 | the built string is the symbol, then the selected text, then the symbol again when wrapping; its length is the text's length plus one or two symbols |
| MarkdownInsertion.Insert | src/App.jsx:89-99 | without a range selection the document is unchanged; otherwise the text before the range is kept, the built string replaces the range, the text after it follows, and the caret sits after the insertion |
| MarkdownInsertion.InsertKeepsSelectedText | src/App.jsx:94-97 | in the new text the selected text sits right after the symbol, and with wrapping the symbol follows it again |
| MarkdownInsertion.InsertUndone | src/App.jsx:94-97 | putting the selected text back in place of the inserted string restores the original text |
| MarkdownInsertion.InsertAtCaret | src/App.jsx:94-97 | at a collapsed selection only the symbol (twice when wrapping) is inserted at the caret |
| MarkdownInsertion.BoldExample | src/App.jsx:131 | bold on the selected word "hi" gives "\*\*hi\*\*" with the caret at 6 |
| MarkdownInsertion.ToolbarArguments | src/App.jsx:131-139 | every button passes a non-empty symbol, and only bold, italic and highlight wrap |
| EditorComponent.Editor.InsertMarkdown | src/App.jsx:89-99 | the editor's new document is the insertion applied to the old one, and the selection stays inside the text |
| EditorComponent.Editor.ClickToolbar | src/App.jsx:131-139 | a button click is the insertion with that button's literal arguments |
| EditorComponent.BoldThenChange | src/App.jsx:62-72 | bold on "hi" followed by the change event yields text "\*\*hi\*\*" and a count of 6 |
| Rendering.StripParagraphTags | src/App.jsx:117 | removing `<p>` and `</p>` never lengthens the HTML |
| Rendering.StripKeepsTagFree | src/App.jsx:117 | HTML without a paragraph tag is left unchanged |
| Rendering.StripUnchangedIffTagFree | src/App.jsx:117 | the removal leaves the HTML unchanged exactly when it holds no paragraph tag |
| Rendering.StripNotIdempotent | src/App.jsx:117 | one left-to-right pass can create a new tag: "<<p>p>" becomes "<p>", and a second pass gives "" |
| Rendering.LazyClose | src/App.jsx:118 | a found closing `==` lies inside the rest of the text |
| Rendering.LazyCloseFirst | src/App.jsx:118 | the lazy match closes at the first `==` that no line terminator precedes, and finds none exactly when no such `==` exists |
| Rendering.LazyCloseStopsAtLineEnd | src/App.jsx:118 | the search for the closing `==` never looks past a line terminator |
| Rendering.Highlight | src/App.jsx:118 | the replacement never shortens the HTML |
| Rendering.HighlightKeepsMarkerFree | src/App.jsx:118 | HTML without `==` is left unchanged |
| Rendering.HighlightRespectsLineBreaks | src/App.jsx:118 | each line is highlighted on its own: a highlight never spans a line terminator |
| Rendering.UnmarkHighlight | src/App.jsx:118 | for HTML holding no `<mark>` and no `</mark>` tag, turning every `<mark>` and `</mark>` of the result back into `==` gives the original HTML |
| Rendering.UnmarkHighlightAfterBreak | src/App.jsx:118 | HTML with other tags, such as "\<br>==a==", also round-trips through the replacement and back |
| Rendering.LazyCloseExample | src/App.jsx:118 | in "hi==" the closing marker is found at 2 |
| Rendering.HighlightExample | src/App.jsx:118 | "==hi==" becomes "\<mark>hi\</mark>" and no `=` remains |
| Rendering.HighlightsInsertedMarkers | src/App.jsx:134 | the highlight button wraps the selection in `==`, and for a one-line selection with no `==` in the selection and the selection not ending in `=`, the replacement turns that into exactly `<mark>`, the selection, `</mark>` |
| Rendering.CleanHtmlKeepsPlain | src/App.jsx:116-118 | HTML with no paragraph tag and no `==` passes the cleanup unchanged |
| Rendering.CleanHtmlExample | src/App.jsx:116-118 | the conversion of "==hi==", "\<p>==hi==\</p>\n", becomes "\<mark>hi\</mark>\n" |
| Rendering.StripAfterHighlightText | src/App.jsx:117 | the closing paragraph tag after highlighted text is removed and the newline kept |
| Rendering.HighlightExampleWithNewline | src/App.jsx:118 | "==hi==\n" becomes "\<mark>hi\</mark>\n" |
| Rendering.CleanHtml | src/App.jsx:116-118 | the paragraph tags are removed before the highlight: HTML without paragraph tags is only highlighted, and HTML whose tag-free form holds no `==` is only stripped of its tags |
| Rendering.CleanHtmlOrderMatters | src/App.jsx:116-118 | the order is observable: "=\<p>=hi=\<p>=" becomes "\<mark>hi\</mark>", while highlighting first and stripping second would give "==hi==" |
| Rendering.Preview | src/App.jsx:160 | what reaches the page is always sanitizer output |
| Rendering.PreviewOfPlainConversion | src/App.jsx:116-118 | when the conversion holds no paragraph tag and no `==`, the sanitizer at src/App.jsx:160 is handed the conversion itself |
| Rendering.PreviewHighlightExample | src/App.jsx:116-118 | when "==hi==" converts to "\<p>==hi==\</p>\n", the sanitizer is handed "\<mark>hi\</mark>\n" |

## Left out

- The rich-text editor's node tree is flattened to one string. `$getRoot().getTextContent()` is the string itself, and the change handler receives it as its argument.
- Selection offsets count characters, not UTF-16 code units, and a backwards selection is taken as normalised (start before end).
- `selection.insertNodes` is modelled as replacing the selected range with one text node's content. Formatting nodes and paragraph structure are not modelled.
- Rendering.Preview: `marked(markdown, { breaks: true })` and `DOMPurify.sanitize` are code outside this model and enter only as function parameters. Its own contract states only that the output is sanitizer output; the lemmas beside it state what the sanitizer is handed for given conversions. Nothing states what either library does.
- Persistence of the editor state in `localStorage`, the 500 ms debounce and the restore on load (src/App.jsx:38-60) are I/O and timing.
- Copy to clipboard and the alert banner (src/App.jsx:74-87) are I/O and timers.
- The `INSERT_MARKDOWN_COMMAND` handler (src/App.jsx:101-114) is registered but never dispatched by the component.
- JSX layout, icons and CSS classes are left out.
- EditorComponent.Editor.HandleEditorChange: the two state hooks `setMarkdown` and `setWordCount` are held in one `state` field, updated once. React's re-render scheduling is not modelled.
