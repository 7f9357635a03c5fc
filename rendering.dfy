/** The preview pipeline: the markdown text is converted to HTML, every
    paragraph tag is removed, `==text==` becomes `<mark>text</mark>`, and the
    result is sanitized before it is displayed. The conversion and the
    sanitizer are outside libraries and enter as parameters. */
module Rendering {
  import MarkdownInsertion
  import TextMetrics

  datatype Option<T> = None | Some(value: T)

  /** ECMAScript LineTerminator: the characters `.` does not match. */
  predicate IsLineTerminator(c: char)
  {
    c == '\n' || c == '\r' || c == '\U{2028}' || c == '\U{2029}'
  }

  lemma ConcatSlices(a: string, b: string, i: nat, j: nat)
    requires i <= j <= |a|
    ensures (a + b)[i..j] == a[i..j]
    ensures (a + b)[i..] == a[i..] + b
  {
  }

  // ---------------------------------------------------------------------------
  // replace(/<\/?p>/g, '')

  /** `<p>` starts at position `i` of `s`. */
  predicate OpenParagraphAt(s: string, i: nat)
  {
    i + 3 <= |s| && s[i] == '<' && s[i + 1] == 'p' && s[i + 2] == '>'
  }

  /** `</p>` starts at position `i` of `s`. */
  predicate CloseParagraphAt(s: string, i: nat)
  {
    i + 4 <= |s| && s[i] == '<' && s[i + 1] == '/' && s[i + 2] == 'p' && s[i + 3] == '>'
  }

  predicate ParagraphTagAt(s: string, i: nat)
  {
    OpenParagraphAt(s, i) || CloseParagraphAt(s, i)
  }

  /** `html.replace(/<\/?p>/g, '')`: one left-to-right pass that drops every
      `<p>` and `</p>` it meets and keeps every other character. */
  function StripParagraphTags(html: string): (r: string)
    ensures |r| <= |html|
    decreases |html|
  {
    if html == [] then []
    else if OpenParagraphAt(html, 0) then StripParagraphTags(html[3..])
    else if CloseParagraphAt(html, 0) then StripParagraphTags(html[4..])
    else [html[0]] + StripParagraphTags(html[1..])
  }

  /** A tag anywhere makes the output strictly shorter. */
  lemma {:induction false} StripShortensAtTag(html: string, i: nat)
    requires ParagraphTagAt(html, i)
    ensures |StripParagraphTags(html)| < |html|
    decreases i
  {
    if !ParagraphTagAt(html, 0) {
      assert ParagraphTagAt(html[1..], i - 1);
      StripShortensAtTag(html[1..], i - 1);
    }
  }

  /** Text without a tag passes through unchanged. */
  lemma {:induction false} StripKeepsTagFree(html: string)
    requires forall i: nat :: !ParagraphTagAt(html, i)
    ensures StripParagraphTags(html) == html
    decreases |html|
  {
    if html != [] {
      assert !ParagraphTagAt(html, 0);
      forall i: nat ensures !ParagraphTagAt(html[1..], i) {
        assert !ParagraphTagAt(html, i + 1);
      }
      StripKeepsTagFree(html[1..]);
    }
  }

  /** Paragraph stripping changes its input exactly when the input holds a
      `<p>` or `</p>`. */
  lemma StripUnchangedIffTagFree(html: string)
    ensures StripParagraphTags(html) == html <==> forall i: nat :: !ParagraphTagAt(html, i)
  {
    if forall i: nat :: !ParagraphTagAt(html, i) {
      StripKeepsTagFree(html);
    } else {
      var i: nat :| ParagraphTagAt(html, i);
      StripShortensAtTag(html, i);
    }
  }

  /** The pass is not idempotent: removing the inner `<p>` of "<<p>p>"
      leaves a new `<p>` behind, which only a second pass removes. */
  lemma StripNotIdempotent()
    ensures StripParagraphTags("<<p>p>") == "<p>"
    ensures StripParagraphTags(StripParagraphTags("<<p>p>")) == ""
  {
    assert "<<p>p>"[1..] == "<p>p>" && "<p>p>"[3..] == "p>";
    assert "p>"[1..] == ">" && ">"[1..] == [];
    assert StripParagraphTags(">") == ">";
    assert StripParagraphTags("p>") == "p>";
    assert StripParagraphTags("<p>p>") == "p>";
    assert [('<')] + "p>" == "<p>";
    assert "<p>"[3..] == [];
  }

  /** Text free of `<` is copied by the stripping pass. */
  lemma {:induction false} StripPrefixPlain(plain: string, rest: string)
    requires '<' !in plain
    ensures StripParagraphTags(plain + rest) == plain + StripParagraphTags(rest)
    decreases |plain|
  {
    if plain == [] {
      assert plain + rest == rest;
    } else {
      var s := plain + rest;
      assert s[0] == plain[0] && s[1..] == plain[1..] + rest;
      assert plain[0] in plain;
      assert '<' !in plain[1..] by {
        forall c | c in plain[1..] ensures c in plain { }
      }
      StripPrefixPlain(plain[1..], rest);
      TextMetrics.AppendAssoc([plain[0]], plain[1..], StripParagraphTags(rest));
      assert [plain[0]] + plain[1..] == plain;
    }
  }

  // ---------------------------------------------------------------------------
  // replace(/==(.*?)==/g, '<mark>$1</mark>')

  /** `==` starts at position `i` of `s`. */
  predicate MarkerAt(s: string, i: nat)
  {
    i + 2 <= |s| && s[i] == '=' && s[i + 1] == '='
  }

  /** A highlight that opened just before `t` can close at `k`: `==` occurs
      at `k` and no line terminator comes before it. */
  predicate ClosesAt(t: string, k: nat)
  {
    MarkerAt(t, k) && forall j :: 0 <= j < k ==> !IsLineTerminator(t[j])
  }

  lemma ClosesAtShift(t: string, k: nat)
    requires t != [] && !IsLineTerminator(t[0])
    ensures ClosesAt(t, k + 1) <==> ClosesAt(t[1..], k)
  {
    if ClosesAt(t[1..], k) {
      forall j | 0 <= j < k + 1 ensures !IsLineTerminator(t[j]) {
        if j > 0 { assert t[j] == t[1..][j - 1]; }
      }
    }
    if ClosesAt(t, k + 1) {
      forall j | 0 <= j < k ensures !IsLineTerminator(t[1..][j]) {
        assert t[1..][j] == t[j + 1];
      }
    }
  }

  /** The lazy `.*?` of the highlight pattern: where the highlight that opened
      just before `t` closes, if it closes on the same line. */
  function LazyClose(t: string): (k: Option<nat>)
    ensures k.Some? ==> k.value + 2 <= |t|
    decreases |t|
  {
    if |t| < 2 then None
    else if MarkerAt(t, 0) then Some(0)
    else if IsLineTerminator(t[0]) then None
    else
      match LazyClose(t[1..])
      case None => None
      case Some(k) => Some(k + 1)
  }

  /** LazyClose finds the first closing `==` on the line, and finds one
      whenever there is one. */
  lemma {:induction false} LazyCloseFirst(t: string)
    ensures LazyClose(t).Some? ==>
      ClosesAt(t, LazyClose(t).value) && forall j: nat :: j < LazyClose(t).value ==> !ClosesAt(t, j)
    ensures LazyClose(t).None? ==> forall j: nat :: !ClosesAt(t, j)
    decreases |t|
  {
    if |t| < 2 || MarkerAt(t, 0) {
    } else if IsLineTerminator(t[0]) {
      forall j: nat ensures !ClosesAt(t, j) {
        if j > 0 { assert 0 <= 0 < j; }
      }
    } else {
      LazyCloseFirst(t[1..]);
      forall j: nat | 0 < j ensures ClosesAt(t, j) <==> ClosesAt(t[1..], j - 1) {
        ClosesAtShift(t, j - 1);
      }
      assert !ClosesAt(t, 0);
      if LazyClose(t[1..]).Some? {
        ClosesAtShift(t, LazyClose(t[1..]).value);
      }
    }
  }

  /** `html.replace(/==(.*?)==/g, '<mark>$1</mark>')`: scanning left to
      right, a `==` whose lazy match closes on the same line becomes
      `<mark>`, the text, `</mark>`; every other character is kept. */
  function Highlight(html: string): (r: string)
    ensures |html| <= |r|
    decreases |html|
  {
    if html == [] then []
    else if MarkerAt(html, 0) && LazyClose(html[2..]).Some? then
      var k := LazyClose(html[2..]).value;
      "<mark>" + html[2..2 + k] + "</mark>" + Highlight(html[4 + k..])
    else [html[0]] + Highlight(html[1..])
  }

  /** Characters other than `=` are copied one at a time. */
  lemma HighlightCons(c: char, rest: string)
    requires c != '='
    ensures Highlight([c] + rest) == [c] + Highlight(rest)
  {
    var s := [c] + rest;
    assert s[0] == c && s[1..] == rest;
  }

  /** Text with no `==` passes through unchanged. */
  lemma {:induction false} HighlightKeepsMarkerFree(html: string)
    requires forall i: nat :: !MarkerAt(html, i)
    ensures Highlight(html) == html
    decreases |html|
  {
    if html != [] {
      assert !MarkerAt(html, 0);
      forall i: nat ensures !MarkerAt(html[1..], i) {
        assert !MarkerAt(html, i + 1);
      }
      HighlightKeepsMarkerFree(html[1..]);
    }
  }

  /** A closing `==` is never looked for past a line terminator. */
  lemma {:induction false} LazyCloseStopsAtLineEnd(a: string, lt: char, b: string)
    requires IsLineTerminator(lt)
    ensures LazyClose(a + [lt] + b) == LazyClose(a)
    decreases |a|
  {
    var t := a + [lt] + b;
    if |a| >= 2 {
      assert t[0] == a[0] && t[1] == a[1] && t[1..] == a[1..] + [lt] + b;
      if !MarkerAt(a, 0) && !IsLineTerminator(a[0]) {
        LazyCloseStopsAtLineEnd(a[1..], lt, b);
      }
    } else if |a| == 1 {
      assert t[0] == a[0] && t[1] == lt && t[1..] == [lt] + b;
      if !IsLineTerminator(a[0]) {
        assert LazyClose([lt] + b) == None;
      }
    } else {
      assert t == [lt] + b;
    }
  }

  /** One step of HighlightRespectsLineBreaks: a highlight that starts in
      `x` ends in `x`. */
  lemma HighlightMarkBeforeLineEnd(x: string, lt: char, y: string)
    requires IsLineTerminator(lt)
    requires MarkerAt(x, 0) && LazyClose(x[2..]).Some?
    requires var k := LazyClose(x[2..]).value;
      Highlight(x[4 + k..] + ([lt] + y)) == Highlight(x[4 + k..]) + ([lt] + Highlight(y))
    ensures Highlight(x + ([lt] + y)) == Highlight(x) + ([lt] + Highlight(y))
  {
    var s := x + ([lt] + y);
    var k := LazyClose(x[2..]).value;
    var m := "<mark>" + x[2..2 + k] + "</mark>";
    ConcatSlices(x, [lt] + y, 2, 2);
    TextMetrics.AppendAssoc(x[2..], [lt], y);
    LazyCloseStopsAtLineEnd(x[2..], lt, y);
    assert LazyClose(s[2..]) == Some(k);
    ConcatSlices(x, [lt] + y, 2, 2 + k);
    ConcatSlices(x, [lt] + y, 4 + k, 4 + k);
    assert MarkerAt(s, 0);
    assert Highlight(s) == m + Highlight(x[4 + k..] + ([lt] + y));
    assert Highlight(x) == m + Highlight(x[4 + k..]);
    TextMetrics.AppendAssoc(m, Highlight(x[4 + k..]), [lt] + Highlight(y));
  }

  /** The other step: where `x` does not open a highlight, neither does the
      whole line. */
  lemma HighlightPlainBeforeLineEnd(x: string, lt: char, y: string)
    requires IsLineTerminator(lt)
    requires x != [] && !(MarkerAt(x, 0) && LazyClose(x[2..]).Some?)
    requires Highlight(x[1..] + ([lt] + y)) == Highlight(x[1..]) + ([lt] + Highlight(y))
    ensures Highlight(x + ([lt] + y)) == Highlight(x) + ([lt] + Highlight(y))
  {
    var s := x + ([lt] + y);
    ConcatSlices(x, [lt] + y, 1, 1);
    if MarkerAt(s, 0) {
      assert |x| >= 2;
      ConcatSlices(x, [lt] + y, 2, 2);
      TextMetrics.AppendAssoc(x[2..], [lt], y);
      LazyCloseStopsAtLineEnd(x[2..], lt, y);
    }
    assert Highlight(s) == [x[0]] + Highlight(x[1..] + ([lt] + y));
    assert Highlight(x) == [x[0]] + Highlight(x[1..]);
    TextMetrics.AppendAssoc([x[0]], Highlight(x[1..]), [lt] + Highlight(y));
  }

  lemma {:induction false} HighlightLineBreakRight(x: string, lt: char, y: string)
    requires IsLineTerminator(lt)
    ensures Highlight(x + ([lt] + y)) == Highlight(x) + ([lt] + Highlight(y))
    decreases |x|
  {
    if x == [] {
      HighlightCons(lt, y);
      assert x + ([lt] + y) == [lt] + y;
      assert Highlight(x) + ([lt] + Highlight(y)) == [lt] + Highlight(y);
    } else if MarkerAt(x, 0) && LazyClose(x[2..]).Some? {
      HighlightLineBreakRight(x[4 + LazyClose(x[2..]).value..], lt, y);
      HighlightMarkBeforeLineEnd(x, lt, y);
    } else {
      HighlightLineBreakRight(x[1..], lt, y);
      HighlightPlainBeforeLineEnd(x, lt, y);
    }
  }

  /** A highlight never spans a line terminator: the text on each side of
      one is rewritten on its own. */
  lemma HighlightRespectsLineBreaks(x: string, lt: char, y: string)
    requires IsLineTerminator(lt)
    ensures Highlight(x + [lt] + y) == Highlight(x) + [lt] + Highlight(y)
  {
    TextMetrics.AppendAssoc(x, [lt], y);
    HighlightLineBreakRight(x, lt, y);
    TextMetrics.AppendAssoc(Highlight(x), [lt], Highlight(y));
  }

  /** The closing `==` of "hi==" is at 2. */
  lemma LazyCloseExample()
    ensures LazyClose("hi==") == Some(2)
  {
    assert "hi=="[1..] == "i==" && "i=="[1..] == "==";
    assert MarkerAt("==", 0);
    assert LazyClose("i==") == Some(1);
  }

  /** "==hi==" becomes "<mark>hi</mark>", with no `=` left. */
  lemma HighlightExample()
    ensures Highlight("==hi==") == "<mark>hi</mark>"
    ensures '=' !in Highlight("==hi==")
  {
    assert "==hi=="[2..] == "hi==";
    LazyCloseExample();
    assert MarkerAt("==hi==", 0);
    assert "==hi=="[2..4] == "hi" && "==hi=="[6..] == [];
    assert "<mark>" + "hi" + "</mark>" + [] == "<mark>hi</mark>";
  }

  /** `<mark>` starts at position `i` of `s`. */
  predicate OpenMarkAt(s: string, i: nat)
  {
    && i + 6 <= |s|
    && s[i] == '<' && s[i + 1] == 'm' && s[i + 2] == 'a' && s[i + 3] == 'r'
    && s[i + 4] == 'k' && s[i + 5] == '>'
  }

  /** `</mark>` starts at position `i` of `s`. */
  predicate CloseMarkAt(s: string, i: nat)
  {
    && i + 7 <= |s|
    && s[i] == '<' && s[i + 1] == '/' && s[i + 2] == 'm' && s[i + 3] == 'a'
    && s[i + 4] == 'r' && s[i + 5] == 'k' && s[i + 6] == '>'
  }

  predicate MarkTagAt(s: string, i: nat)
  {
    OpenMarkAt(s, i) || CloseMarkAt(s, i)
  }

  /** Neither `<mark>` nor `</mark>` occurs in `s`. */
  ghost predicate NoMarkTags(s: string)
  {
    forall i: nat :: !MarkTagAt(s, i)
  }

  /** A tag inside a slice is a tag of the whole string. */
  lemma MarkTagInSlice(s: string, a: nat, b: nat, i: nat)
    requires a <= b <= |s|
    ensures MarkTagAt(s[a..b], i) ==> MarkTagAt(s, a + i)
  {
    if MarkTagAt(s[a..b], i) {
      forall p | i <= p < i + 7 && p < b - a ensures s[a..b][p] == s[a + p] { }
    }
  }

  lemma NoMarkTagsInSlice(s: string, a: nat, b: nat)
    requires a <= b <= |s| && NoMarkTags(s)
    ensures NoMarkTags(s[a..b])
  {
    forall i: nat ensures !MarkTagAt(s[a..b], i) {
      MarkTagInSlice(s, a, b, i);
    }
  }

  lemma NoMarkTagsInSuffix(s: string, a: nat)
    requires a <= |s| && NoMarkTags(s)
    ensures NoMarkTags(s[a..])
  {
    NoMarkTagsInSlice(s, a, |s|);
    assert s[a..] == s[a..|s|];
  }

  /** A tag has `<` only at its start, so a tag that begins inside `plain`
      cannot run into a `rest` that begins with `<`. */
  lemma MarkTagBeforeTag(plain: string, rest: string, i: nat)
    requires i < |plain| && rest != [] && rest[0] == '<'
    ensures MarkTagAt(plain + rest, i) ==> MarkTagAt(plain, i)
  {
    var s := plain + rest;
    assert s[|plain|] == '<';
    if MarkTagAt(s, i) {
      forall p | i <= p < i + 7 && p < |plain| ensures s[p] == plain[p] { }
    }
  }

  /** Turns highlight markup back into `==` markers. */
  function Unmark(html: string): (r: string)
    decreases |html|
  {
    if html == [] then []
    else if OpenMarkAt(html, 0) then "==" + Unmark(html[6..])
    else if CloseMarkAt(html, 0) then "==" + Unmark(html[7..])
    else [html[0]] + Unmark(html[1..])
  }

  lemma UnmarkOpen(rest: string)
    ensures Unmark("<mark>" + rest) == "==" + Unmark(rest)
  {
    var s := "<mark>" + rest;
    assert OpenMarkAt(s, 0) && s[6..] == rest;
  }

  lemma UnmarkClose(rest: string)
    ensures Unmark("</mark>" + rest) == "==" + Unmark(rest)
  {
    var s := "</mark>" + rest;
    assert !OpenMarkAt(s, 0) && CloseMarkAt(s, 0) && s[7..] == rest;
  }

  /** Text free of highlight tags is copied by Unmark up to a following
      tag. */
  lemma {:induction false} UnmarkPlain(plain: string, rest: string)
    requires NoMarkTags(plain) && rest != [] && rest[0] == '<'
    ensures Unmark(plain + rest) == plain + Unmark(rest)
    decreases |plain|
  {
    if plain == [] {
      assert plain + rest == rest;
    } else {
      var s := plain + rest;
      MarkTagBeforeTag(plain, rest, 0);
      assert !MarkTagAt(plain, 0);
      assert s[0] == plain[0] && s[1..] == plain[1..] + rest;
      assert Unmark(s) == [plain[0]] + Unmark(plain[1..] + rest);
      NoMarkTagsInSuffix(plain, 1);
      UnmarkPlain(plain[1..], rest);
      TextMetrics.AppendAssoc([plain[0]], plain[1..], Unmark(rest));
      assert [plain[0]] + plain[1..] == plain;
    }
  }

  /** Unmark turns one piece of highlight markup back into its markers. */
  lemma UnmarkMarkup(inner: string, rest: string)
    requires NoMarkTags(inner)
    ensures Unmark("<mark>" + inner + "</mark>" + rest) == "==" + (inner + ("==" + Unmark(rest)))
  {
    var tail := "</mark>" + rest;
    TextMetrics.AppendAssoc("<mark>", inner, "</mark>");
    TextMetrics.AppendAssoc("<mark>" + inner, "</mark>", rest);
    TextMetrics.AppendAssoc("<mark>", inner, tail);
    UnmarkOpen(inner + tail);
    assert tail[0] == '<';
    UnmarkPlain(inner, tail);
    UnmarkClose(rest);
  }

  /** A highlight at the front of `html` spans `==`, the text, `==`. */
  lemma MarkedShape(html: string)
    requires MarkerAt(html, 0) && LazyClose(html[2..]).Some?
    ensures var k := LazyClose(html[2..]).value;
      html == "==" + (html[2..2 + k] + ("==" + html[4 + k..]))
  {
    var k := LazyClose(html[2..]).value;
    LazyCloseFirst(html[2..]);
    assert html[2..][k] == html[2 + k] && html[2..][k + 1] == html[3 + k];
    assert html[..2] == "==";
    assert html[2 + k..4 + k] == "==";
    assert html == html[..2] + (html[2..2 + k] + (html[2 + k..4 + k] + html[4 + k..]));
  }

  /** Up to its first `<`, the highlighted text agrees with the original:
      everything before the first inserted tag is copied. */
  lemma {:induction false} HighlightAgreesBefore(t: string, n: nat)
    requires n <= |Highlight(t)|
    requires forall j :: 0 <= j < n ==> Highlight(t)[j] != '<'
    ensures n <= |t| && Highlight(t)[..n] == t[..n]
    decreases n
  {
    if n > 0 {
      assert t != [];
      assert !(MarkerAt(t, 0) && LazyClose(t[2..]).Some?) by {
        assert Highlight(t)[0] != '<';
      }
      var h := Highlight(t[1..]);
      assert Highlight(t) == [t[0]] + h;
      forall j | 0 <= j < n - 1 ensures h[j] != '<' {
        assert h[j] == Highlight(t)[j + 1];
      }
      HighlightAgreesBefore(t[1..], n - 1);
      assert Highlight(t)[..n] == [t[0]] + h[..n - 1];
      assert t[..n] == [t[0]] + t[1..][..n - 1];
    }
  }

  /** When Highlight copies the first character, a tag at the front of the
      result was already at the front of the input. */
  lemma HeadTagComesFromInput(html: string)
    requires html != [] && !(MarkerAt(html, 0) && LazyClose(html[2..]).Some?)
    ensures MarkTagAt([html[0]] + Highlight(html[1..]), 0) ==> MarkTagAt(html, 0)
  {
    var h := Highlight(html[1..]);
    var s := [html[0]] + h;
    if OpenMarkAt(s, 0) {
      forall j | 0 <= j < 5 ensures h[j] != '<' {
        assert h[j] == s[j + 1];
      }
      HighlightAgreesBefore(html[1..], 5);
      forall p | 1 <= p < 6 ensures html[p] == s[p] {
        assert h[..5][p - 1] == html[1..][..5][p - 1];
      }
    }
    if CloseMarkAt(s, 0) {
      forall j | 0 <= j < 6 ensures h[j] != '<' {
        assert h[j] == s[j + 1];
      }
      HighlightAgreesBefore(html[1..], 6);
      forall p | 1 <= p < 7 ensures html[p] == s[p] {
        assert h[..6][p - 1] == html[1..][..6][p - 1];
      }
    }
  }

  /** The step of UnmarkHighlight where a highlight opens at the front and
      closes at `k`. */
  lemma UnmarkHighlightMarked(html: string, k: nat)
    requires MarkerAt(html, 0) && LazyClose(html[2..]) == Some(k)
    requires NoMarkTags(html[2..2 + k])
    requires Unmark(Highlight(html[4 + k..])) == html[4 + k..]
    ensures Unmark(Highlight(html)) == html
  {
    var inner, rest := html[2..2 + k], html[4 + k..];
    assert Unmark(Highlight(html)) == "==" + (inner + ("==" + rest)) by {
      assert Highlight(html) == "<mark>" + inner + "</mark>" + Highlight(rest);
      UnmarkMarkup(inner, Highlight(rest));
    }
    MarkedShape(html);
  }

  /** The step of UnmarkHighlight where the first character is copied. */
  lemma UnmarkHighlightPlain(html: string)
    requires NoMarkTags(html)
    requires html != [] && !(MarkerAt(html, 0) && LazyClose(html[2..]).Some?)
    requires Unmark(Highlight(html[1..])) == html[1..]
    ensures Unmark(Highlight(html)) == html
  {
    var h := Highlight(html[1..]);
    var s := [html[0]] + h;
    assert Highlight(html) == s;
    HeadTagComesFromInput(html);
    assert !MarkTagAt(html, 0);
    assert s[0] == html[0] && s[1..] == h;
    assert Unmark(s) == [html[0]] + Unmark(h);
    assert [html[0]] + html[1..] == html;
  }

  /** One step of Highlight: it consumes the first `d` characters of
      `html`, and the round trip for what is left gives the round trip for
      the whole. */
  lemma UnmarkHighlightStep(html: string) returns (d: nat)
    requires NoMarkTags(html) && html != []
    ensures 1 <= d <= |html| && NoMarkTags(html[d..])
    ensures Unmark(Highlight(html[d..])) == html[d..] ==> Unmark(Highlight(html)) == html
  {
    if MarkerAt(html, 0) && LazyClose(html[2..]).Some? {
      var k := LazyClose(html[2..]).value;
      d := 4 + k;
      LazyCloseFirst(html[2..]);
      NoMarkTagsInSuffix(html, d);
      NoMarkTagsInSlice(html, 2, 2 + k);
      if Unmark(Highlight(html[d..])) == html[d..] {
        UnmarkHighlightMarked(html, k);
      }
    } else {
      d := 1;
      NoMarkTagsInSuffix(html, 1);
      if Unmark(Highlight(html[1..])) == html[1..] {
        UnmarkHighlightPlain(html);
      }
    }
  }

  /** On HTML holding no `<mark>` and no `</mark>`, Unmark undoes Highlight:
      highlighting loses no text and moves nothing. */
  lemma {:induction false} UnmarkHighlight(html: string)
    requires NoMarkTags(html)
    ensures Unmark(Highlight(html)) == html
    decreases |html|
  {
    if html != [] {
      var d := UnmarkHighlightStep(html);
      UnmarkHighlight(html[d..]);
    }
  }

  /** Markup other than the highlight tags does not stop the round trip:
      "<br>==a==" is highlighted and unmarked back to itself. */
  lemma UnmarkHighlightAfterBreak()
    ensures Unmark(Highlight("<br>==a==")) == "<br>==a=="
  {
    var s := "<br>==a==";
    forall i: nat ensures !MarkTagAt(s, i) {
      if i <= 3 {
        assert s[0] == '<' && s[1] == 'b' && s[2] == 'r' && s[3] == '>';
      }
    }
    UnmarkHighlight(s);
  }

  /** What the highlight button inserts is highlighted as a whole: `==T==`
      becomes `<mark>T</mark>` when T stays on one line and `T=` holds no
      `==`. */
  lemma HighlightsInsertedMarkers(selected: string)
    requires forall i :: 0 <= i < |selected| ==> !IsLineTerminator(selected[i])
    requires forall i: nat :: !MarkerAt(selected + "=", i)
    ensures MarkdownInsertion.ToolbarArguments(MarkdownInsertion.Highlight) == ("==", true)
    ensures Highlight(MarkdownInsertion.MarkdownText("==", selected, true)) == "<mark>" + selected + "</mark>"
  {
    var s := MarkdownInsertion.MarkdownText("==", selected, true);
    var t := selected + "==";
    assert s == "==" + t;
    assert s[2..] == t;
    assert MarkerAt(s, 0);
    var n := |selected|;
    assert ClosesAt(t, n);
    forall j: nat | j < n ensures !ClosesAt(t, j) {
      assert !MarkerAt(selected + "=", j);
      assert t[j] == (selected + "=")[j] && t[j + 1] == (selected + "=")[j + 1];
    }
    LazyCloseFirst(t);
    assert LazyClose(t) == Some(n);
    assert s[2..2 + n] == selected && s[4 + n..] == [];
  }

  // ---------------------------------------------------------------------------
  // The pipeline

  /** The post-processing of the converted HTML: paragraph tags first, then
      highlights. HTML without paragraph tags only goes through the
      highlight; HTML whose tag-free form holds no `==` only loses its
      paragraph tags. CleanHtmlOrderMatters shows that the order counts. */
  function CleanHtml(html: string): (r: string)
    ensures (forall i: nat :: !ParagraphTagAt(html, i)) ==> r == Highlight(html)
    ensures (forall i: nat :: !MarkerAt(StripParagraphTags(html), i)) ==> r == StripParagraphTags(html)
  {
    StripUnchangedIffTagFree(html);
    HighlightUnchangedWithoutMarkers(StripParagraphTags(html));
    Highlight(StripParagraphTags(html))
  }

  lemma HighlightUnchangedWithoutMarkers(html: string)
    ensures (forall i: nat :: !MarkerAt(html, i)) ==> Highlight(html) == html
  {
    if forall i: nat :: !MarkerAt(html, i) {
      HighlightKeepsMarkerFree(html);
    }
  }

  /** Removing the paragraph tags first can join two halves of a marker:
      "=<p>=hi=<p>=" is cleaned to "<mark>hi</mark>", while highlighting
      first and removing the tags afterwards would leave "==hi==". */
  lemma CleanHtmlOrderMatters()
    ensures CleanHtml("=<p>=hi=<p>=") == "<mark>hi</mark>"
    ensures StripParagraphTags(Highlight("=<p>=hi=<p>=")) == "==hi=="
  {
    StripJoinsMarkers();
    HighlightExample();
    SplitMarkersUnchanged();
  }

  lemma StripJoinsMarkers()
    ensures StripParagraphTags("=<p>=hi=<p>=") == "==hi=="
  {
    var last := StripParagraphTags("<p>" + "=");
    assert last == "=" by {
      StripDropsOpenTag("=");
      StripPrefixPlain("=", []);
      assert "=" + [] == "=";
    }
    var middle := StripParagraphTags("<p>" + ("=hi=" + ("<p>" + "=")));
    assert middle == "=hi=" + "=" by {
      StripDropsOpenTag("=hi=" + ("<p>" + "="));
      StripPrefixPlain("=hi=", "<p>" + "=");
    }
    assert "=<p>=hi=<p>=" == "=" + ("<p>" + ("=hi=" + ("<p>" + "=")));
    StripPrefixPlain("=", "<p>" + ("=hi=" + ("<p>" + "=")));
    assert "=" + ("=hi=" + "=") == "==hi==";
  }

  /** A leading `<p>` is dropped and the rest is processed as it is. */
  lemma StripDropsOpenTag(rest: string)
    ensures StripParagraphTags("<p>" + rest) == StripParagraphTags(rest)
  {
    var s := "<p>" + rest;
    assert OpenParagraphAt(s, 0) && s[3..] == rest;
  }

  lemma SplitMarkersUnchanged()
    ensures Highlight("=<p>=hi=<p>=") == "=<p>=hi=<p>="
  {
    var s := "=<p>=hi=<p>=";
    forall i: nat ensures !MarkerAt(s, i) {
      if i + 2 <= |s| {
        assert s[0] == '=' && s[1] == '<' && s[4] == '=' && s[5] == 'h';
        assert s[7] == '=' && s[8] == '<' && s[11] == '=';
        assert s[2] != '=' && s[3] != '=' && s[6] != '=' && s[9] != '=' && s[10] != '=';
      }
    }
    HighlightKeepsMarkerFree(s);
  }

  /** HTML holding neither a paragraph tag nor `==` is left as it is. */
  lemma CleanHtmlKeepsPlain(html: string)
    requires forall i: nat :: !ParagraphTagAt(html, i)
    requires forall i: nat :: !MarkerAt(html, i)
    ensures CleanHtml(html) == html
  {
    StripKeepsTagFree(html);
    HighlightKeepsMarkerFree(html);
  }

  /** What the preview displays for the markdown text: converted, cleaned,
      and sanitized last, so that the markup the cleaning injects passes
      through the sanitizer too. */
  function Preview(markdown: string, convert: string -> string, sanitize: string -> string): (r: string)
    ensures exists html :: r == sanitize(html)
  {
    sanitize(CleanHtml(convert(markdown)))
  }

  /** When the conversion yields neither a paragraph tag nor `==`, the page
      shows the sanitized conversion itself. */
  lemma PreviewOfPlainConversion(markdown: string, convert: string -> string, sanitize: string -> string)
    requires forall i: nat :: !ParagraphTagAt(convert(markdown), i)
    requires forall i: nat :: !MarkerAt(convert(markdown), i)
    ensures Preview(markdown, convert, sanitize) == sanitize(convert(markdown))
  {
    CleanHtmlKeepsPlain(convert(markdown));
  }

  /** With the conversion of "==hi==" into one paragraph, the sanitizer is
      handed the highlight markup and no `==`. */
  lemma PreviewHighlightExample(convert: string -> string, sanitize: string -> string)
    requires convert("==hi==") == "<p>==hi==</p>\n"
    ensures Preview("==hi==", convert, sanitize) == sanitize("<mark>hi</mark>\n")
  {
    CleanHtmlExample();
  }

  lemma StripAfterHighlightText()
    ensures StripParagraphTags("==hi==</p>\n") == "==hi==\n"
  {
    assert "</p>\n"[4..] == "\n" && "\n"[1..] == [];
    assert StripParagraphTags("\n") == "\n";
    assert StripParagraphTags("</p>\n") == "\n";
    assert '<' !in "==hi==";
    StripPrefixPlain("==hi==", "</p>\n");
    assert "==hi==" + "</p>\n" == "==hi==</p>\n";
  }

  lemma HighlightExampleWithNewline()
    ensures Highlight("==hi==\n") == "<mark>hi</mark>\n"
  {
    assert "==hi==" + ['\n'] + [] == "==hi==\n";
    HighlightRespectsLineBreaks("==hi==", '\n', []);
    HighlightExample();
  }

  /** The wrapping paragraph the conversion emits around "==hi==" is gone
      before the highlight is made. */
  lemma CleanHtmlExample()
    ensures CleanHtml("<p>==hi==</p>\n") == "<mark>hi</mark>\n"
  {
    var s := "<p>==hi==</p>\n";
    assert OpenParagraphAt(s, 0) && s[3..] == "==hi==</p>\n";
    StripAfterHighlightText();
    HighlightExampleWithNewline();
  }
}
