/** The text metrics the editor recomputes on every change: the document text
    with surrounding whitespace trimmed (kept as the `markdown` state), its
    words, and the character total that the page shows under "Total Words". */
module TextMetrics {

  /** The characters ECMAScript's `\s` matches and `String.prototype.trim`
      removes: WhiteSpace (tab, vertical tab, form feed, no-break space, byte
      order mark and every Zs space) and LineTerminator. */
  predicate IsWhitespace(c: char)
  {
    c in WHITESPACE
  }

  const WHITESPACE: set<char> := {
    '\t', '\n', '\U{000B}', '\U{000C}', '\r', ' ', '\U{00A0}', '\U{1680}',
    '\U{2000}', '\U{2001}', '\U{2002}', '\U{2003}', '\U{2004}', '\U{2005}',
    '\U{2006}', '\U{2007}', '\U{2008}', '\U{2009}', '\U{200A}',
    '\U{2028}', '\U{2029}', '\U{202F}', '\U{205F}', '\U{3000}', '\U{FEFF}'
  }

  predicate AllWhitespace(s: string)
  {
    forall i :: 0 <= i < |s| ==> IsWhitespace(s[i])
  }

  predicate NoWhitespace(s: string)
  {
    forall i :: 0 <= i < |s| ==> !IsWhitespace(s[i])
  }

  // ---------------------------------------------------------------------------
  // trim

  /** `s` with its leading whitespace removed. */
  function TrimStart(s: string): (r: string)
    ensures |r| <= |s| && r == s[|s| - |r|..]
    ensures AllWhitespace(s[..|s| - |r|])
    ensures r != [] ==> !IsWhitespace(r[0])
    decreases |s|
  {
    if s != [] && IsWhitespace(s[0]) then TrimStart(s[1..]) else s
  }

  /** `s` with its trailing whitespace removed. */
  function TrimEnd(s: string): (r: string)
    ensures |r| <= |s| && r == s[..|r|]
    ensures AllWhitespace(s[|r|..])
    ensures r != [] ==> !IsWhitespace(r[|r| - 1])
    decreases |s|
  {
    if s != [] && IsWhitespace(s[|s| - 1]) then
      var r := TrimEnd(s[..|s| - 1]);
      assert s[..|s| - 1][..|r|] == s[..|r|];
      assert s[|r|..] == s[..|s| - 1][|r|..] + [s[|s| - 1]];
      r
    else s
  }

  /** `s.trim()`: leading and trailing whitespace removed (TrimShape states
      that exactly that was removed). */
  function Trim(s: string): (r: string)
    ensures |r| <= |s|
    ensures r != [] ==> !IsWhitespace(r[0]) && !IsWhitespace(r[|r| - 1])
  {
    TrimEnd(TrimStart(s))
  }

  /** s is a whitespace prefix, then `Trim(s)`, then a whitespace suffix. */
  lemma TrimShape(s: string)
    ensures var i, r := |s| - |TrimStart(s)|, Trim(s);
      && i + |r| <= |s|
      && r == s[i..i + |r|]
      && AllWhitespace(s[..i])
      && AllWhitespace(s[i + |r|..])
  {
    var t := TrimStart(s);
    var r := TrimEnd(t);
    var i := |s| - |t|;
    SliceOfSuffix(s, i, |r|);
    assert AllWhitespace(s[i + |r|..]) by {
      assert t[|r|..] == s[i + |r|..];
    }
  }

  lemma SliceOfSuffix(s: string, i: nat, n: nat)
    requires i + n <= |s|
    ensures s[i..][..n] == s[i..i + n] && s[i..][n..] == s[i + n..]
  {
  }

  // ---------------------------------------------------------------------------
  // replace(/\s/g, "") and .length

  /** `s.replace(/\s/g, "")`: the non-whitespace characters of s, in order. */
  function StripWhitespace(s: string): (r: string)
    ensures NoWhitespace(r)
    ensures |r| <= |s|
  {
    if s == [] then []
    else (if IsWhitespace(s[0]) then [] else [s[0]]) + StripWhitespace(s[1..])
  }

  /** Number of UTF-16 code units a character takes; JavaScript's `.length`
      counts these. */
  function Utf16Units(c: char): nat
  {
    if c as int < 0x1_0000 then 1 else 2
  }

  /** Every whitespace character lies in the Basic Multilingual Plane. */
  lemma WhitespaceIsOneUnit(c: char)
    requires IsWhitespace(c)
    ensures Utf16Units(c) == 1
  {
  }

  /** JavaScript's `s.length`. */
  function Utf16Length(s: string): (n: nat)
    ensures |s| <= n <= 2 * |s|
  {
    if s == [] then 0 else Utf16Units(s[0]) + Utf16Length(s[1..])
  }

  // ---------------------------------------------------------------------------
  // split(/\s+/).filter(Boolean)

  /** `s.split(/\s+/)`: the pieces between maximal whitespace runs. A leading
      (trailing) run yields an empty first (last) piece; `""` splits to `[""]`. */
  function Split(s: string): (pieces: seq<string>)
    ensures |pieces| >= 1
    ensures forall p :: p in pieces ==> NoWhitespace(p)
    decreases |s|
  {
    if s == [] then [""]
    else if IsWhitespace(s[0]) then [""] + Split(TrimStart(s))
    else
      var rest := Split(s[1..]);
      assert rest[0] in rest;
      assert forall p :: p in rest[1..] ==> p in rest;
      [[s[0]] + rest[0]] + rest[1..]
  }

  /** `pieces.filter(Boolean)`: the non-empty pieces, in order. */
  function DropEmpty(pieces: seq<string>): (kept: seq<string>)
    ensures |kept| <= |pieces|
    ensures forall p :: p in kept ==> p != [] && p in pieces
  {
    if pieces == [] then []
    else
      var rest := DropEmpty(pieces[1..]);
      assert forall p :: p in pieces[1..] ==> p in pieces;
      (if pieces[0] == [] then [] else [pieces[0]]) + rest
  }

  /** `text.split(/\s+/).filter(Boolean)`. */
  function Words(text: string): (words: seq<string>)
    ensures forall w :: w in words ==> w != [] && NoWhitespace(w)
  {
    DropEmpty(Split(text))
  }

  /** The character total of src/App.jsx:66-69: the UTF-16 length of the
      non-whitespace characters plus one separator between consecutive words. */
  function TotalCount(text: string): (n: nat)
    ensures n <= Utf16Length(text)
  {
    var wordCount := |Words(text)|;
    var spaceCount := if wordCount > 1 then wordCount - 1 else 0;
    TotalCountBound(text);
    Utf16Length(StripWhitespace(text)) + spaceCount
  }

  /** What one change notification computes: `markdown` is the trimmed
      document text, `words` the number of words in it, and `totalCount` the
      value stored in the state variable `wordCount`. */
  datatype Metrics = Metrics(markdown: string, words: nat, totalCount: nat)

  function ComputeMetrics(content: string): (m: Metrics)
    ensures m.markdown == Trim(content)
    ensures m.words == |Words(m.markdown)|
    ensures m.totalCount <= Utf16Length(m.markdown)
    ensures m.words == 0 <==> AllWhitespace(content)
    ensures m.totalCount == 0 <==> AllWhitespace(content)
  {
    var text := Trim(content);
    TrimBlank(content);
    BlankIffNoWords(text);
    BlankIffZeroTotal(text);
    Metrics(text, |Words(text)|, TotalCount(text))
  }

  // ---------------------------------------------------------------------------
  // Lemmas about the pieces

  lemma {:induction false} StripWhitespaceAppend(a: string, b: string)
    ensures StripWhitespace(a + b) == StripWhitespace(a) + StripWhitespace(b)
    decreases |a|
  {
    if a != [] {
      assert (a + b)[0] == a[0] && (a + b)[1..] == a[1..] + b;
      StripWhitespaceAppend(a[1..], b);
      var head := if IsWhitespace(a[0]) then [] else [a[0]];
      assert StripWhitespace(a + b) == head + StripWhitespace(a[1..] + b);
    } else {
      assert a + b == b;
    }
  }

  lemma {:induction false} StripWhitespaceEmpty(s: string)
    ensures StripWhitespace(s) == [] <==> AllWhitespace(s)
    decreases |s|
  {
    if s != [] {
      StripWhitespaceEmpty(s[1..]);
      if AllWhitespace(s[1..]) && IsWhitespace(s[0]) {
        forall i | 0 <= i < |s| ensures IsWhitespace(s[i]) {
          if i > 0 { assert s[i] == s[1..][i - 1]; }
        }
      }
    }
  }

  lemma {:induction false} Utf16LengthAppend(a: string, b: string)
    ensures Utf16Length(a + b) == Utf16Length(a) + Utf16Length(b)
    decreases |a|
  {
    if a != [] {
      assert (a + b)[0] == a[0] && (a + b)[1..] == a[1..] + b;
      Utf16LengthAppend(a[1..], b);
    } else {
      assert a + b == b;
    }
  }

  /** Whitespace is a single UTF-16 code unit per character. */
  lemma {:induction false} Utf16LengthBlank(s: string)
    requires AllWhitespace(s)
    ensures Utf16Length(s) == |s|
    decreases |s|
  {
    if s != [] {
      WhitespaceIsOneUnit(s[0]);
      Utf16LengthBlank(s[1..]);
    }
  }

  /** Dropping leading whitespace does not change the non-whitespace text. */
  lemma StripWhitespaceTrimStart(s: string)
    ensures StripWhitespace(TrimStart(s)) == StripWhitespace(s)
  {
    var t := TrimStart(s);
    var k := |s| - |t|;
    var blank := s[..k];
    assert AllWhitespace(blank);
    assert s == blank + t;
    StripWhitespaceAppend(blank, t);
    StripWhitespaceEmpty(blank);
    assert StripWhitespace(s) == [] + StripWhitespace(t);
  }

  /** Trimming keeps every non-whitespace character, and leaves nothing
      exactly when the text is blank. */
  lemma TrimBlank(s: string)
    ensures StripWhitespace(Trim(s)) == StripWhitespace(s)
    ensures Trim(s) == [] <==> AllWhitespace(s)
  {
    var r := Trim(s);
    TrimKeepsNonWhitespace(s);
    StripWhitespaceEmpty(s);
    if r != [] {
      assert StripWhitespace(r) == [r[0]] + StripWhitespace(r[1..]);
    }
  }

  lemma TrimKeepsNonWhitespace(s: string)
    ensures StripWhitespace(Trim(s)) == StripWhitespace(s)
  {
    var r := Trim(s);
    var i := |s| - |TrimStart(s)|;
    TrimShape(s);
    SliceThree(s, i, i + |r|);
    StripBetweenBlanks(s[..i], r, s[i + |r|..]);
  }

  lemma SliceThree(s: string, i: nat, j: nat)
    requires i <= j <= |s|
    ensures s == s[..i] + s[i..j] + s[j..]
  {
  }

  lemma StripBetweenBlanks(prefix: string, r: string, suffix: string)
    requires AllWhitespace(prefix) && AllWhitespace(suffix)
    ensures StripWhitespace(prefix + r + suffix) == StripWhitespace(r)
  {
    StripWhitespaceAppend(prefix + r, suffix);
    StripWhitespaceAppend(prefix, r);
    StripWhitespaceEmpty(prefix);
    StripWhitespaceEmpty(suffix);
  }

  /** Leading whitespace removed from `a + b`. */
  lemma {:induction false} TrimStartAppend(a: string, b: string)
    ensures TrimStart(a + b) == if AllWhitespace(a) then TrimStart(b) else TrimStart(a) + b
    decreases |a|
  {
    if a == [] {
      assert a + b == b;
    } else {
      assert (a + b)[0] == a[0] && (a + b)[1..] == a[1..] + b;
      if IsWhitespace(a[0]) {
        TrimStartAppend(a[1..], b);
        assert AllWhitespace(a) <==> AllWhitespace(a[1..]) by {
          if AllWhitespace(a[1..]) {
            forall i | 0 <= i < |a| ensures IsWhitespace(a[i]) {
              if i > 0 { assert a[i] == a[1..][i - 1]; }
            }
          }
        }
      }
    }
  }

  /** The first piece is empty exactly when the text is empty or starts with
      whitespace. */
  lemma FirstPiece(s: string)
    ensures Split(s)[0] == [] <==> s == [] || IsWhitespace(s[0])
  {
  }

  /** `filter(Boolean)` over a non-empty list of pieces, one piece at a time. */
  lemma DropEmptyCons(pieces: seq<string>)
    requires pieces != []
    ensures DropEmpty(pieces) == (if pieces[0] == [] then [] else [pieces[0]]) + DropEmpty(pieces[1..])
  {
  }

  // ---------------------------------------------------------------------------
  // Words: content and count against independent definitions

  /** All pieces of a list, joined. */
  function Concat(pieces: seq<string>): (r: string)
  {
    if pieces == [] then [] else pieces[0] + Concat(pieces[1..])
  }

  lemma {:induction false} ConcatDropEmpty(pieces: seq<string>)
    ensures Concat(DropEmpty(pieces)) == Concat(pieces)
    decreases |pieces|
  {
    if pieces != [] {
      ConcatDropEmpty(pieces[1..]);
      var head := if pieces[0] == [] then [] else [pieces[0]];
      assert DropEmpty(pieces) == head + DropEmpty(pieces[1..]);
      ConcatAppend(head, DropEmpty(pieces[1..]));
    }
  }

  lemma {:induction false} ConcatAppend(a: seq<string>, b: seq<string>)
    ensures Concat(a + b) == Concat(a) + Concat(b)
    decreases |a|
  {
    if a != [] {
      assert (a + b)[0] == a[0] && (a + b)[1..] == a[1..] + b;
      ConcatAppend(a[1..], b);
    } else {
      assert a + b == b;
    }
  }

  lemma {:induction false} ConcatSplit(s: string)
    ensures Concat(Split(s)) == StripWhitespace(s)
    decreases |s|
  {
    if s == [] {
      assert Concat([""]) == "" + Concat([]);
    } else if IsWhitespace(s[0]) {
      var t := TrimStart(s);
      var pieces := [""] + Split(t);
      assert Split(s) == pieces;
      assert pieces[0] == "" && pieces[1..] == Split(t);
      ConcatSplit(t);
      StripWhitespaceTrimStart(s);
    } else {
      var rest := Split(s[1..]);
      var pieces := [[s[0]] + rest[0]] + rest[1..];
      assert Split(s) == pieces;
      assert pieces[0] == [s[0]] + rest[0] && pieces[1..] == rest[1..];
      ConcatSplit(s[1..]);
      assert Concat(rest) == rest[0] + Concat(rest[1..]);
      assert StripWhitespace(s) == [s[0]] + StripWhitespace(s[1..]);
    }
  }

  /** The words, joined, are exactly the non-whitespace characters of the
      text, in order: splitting and filtering lose and invent nothing. */
  lemma WordsJoinToNonWhitespace(text: string)
    ensures Concat(Words(text)) == StripWhitespace(text)
  {
    ConcatDropEmpty(Split(text));
    ConcatSplit(text);
  }

  /** Number of words of s counted by their first characters: a
      non-whitespace character that starts s or follows whitespace.
      `afterWhitespace` says whether s starts at a word boundary. */
  function WordStarts(s: string, afterWhitespace: bool): nat
  {
    if s == [] then 0
    else (if afterWhitespace && !IsWhitespace(s[0]) then 1 else 0) + WordStarts(s[1..], IsWhitespace(s[0]))
  }

  lemma {:induction false} WordStartsTrimStart(s: string)
    ensures WordStarts(TrimStart(s), true) == WordStarts(s, true)
    decreases |s|
  {
    if s != [] && IsWhitespace(s[0]) {
      WordStartsTrimStart(s[1..]);
    }
  }

  /** The pieces after the first hold as many words as start after the first
      character. */
  lemma {:induction false} SplitTailWords(s: string)
    ensures |DropEmpty(Split(s)[1..])| == WordStarts(s, false)
    decreases |s|
  {
    if s == [] {
    } else if IsWhitespace(s[0]) {
      var t := TrimStart(s);
      assert Split(s) == [""] + Split(t);
      assert Split(s)[1..] == Split(t);
      WordStartsTrimStart(s[1..]);
      assert TrimStart(s) == TrimStart(s[1..]);
      assert WordStarts(s, false) == WordStarts(t, true);
      DropEmptyCons(Split(t));
      FirstPiece(t);
      if t != [] {
        SplitTailWords(t);
      }
    } else {
      var rest := Split(s[1..]);
      assert Split(s)[1..] == rest[1..];
      SplitTailWords(s[1..]);
      if s[1..] != [] {
        FirstPiece(s[1..]);
        DropEmptyCons(rest);
      }
    }
  }

  /** The number of words is the number of word starts: maximal
      non-whitespace runs, however long the whitespace between them. */
  lemma WordCountIsWordStarts(text: string)
    ensures |Words(text)| == WordStarts(text, true)
  {
    DropEmptyCons(Split(text));
    FirstPiece(text);
    SplitTailWords(text);
  }

  // ---------------------------------------------------------------------------
  // The total count

  lemma {:induction false} SplitBound(s: string)
    ensures Utf16Length(StripWhitespace(s)) + |Split(s)| <= Utf16Length(s) + 1
    decreases |s|
  {
    if s == [] {
    } else if IsWhitespace(s[0]) {
      SplitBound(s[1..]);
      SplitBoundBlankStep(s);
    } else {
      SplitBound(s[1..]);
      SplitBoundWordStep(s);
    }
  }

  /** A leading whitespace character adds at most one piece, and one unit. */
  lemma SplitBoundBlankStep(s: string)
    requires s != [] && IsWhitespace(s[0])
    requires Utf16Length(StripWhitespace(s[1..])) + |Split(s[1..])| <= Utf16Length(s[1..]) + 1
    ensures Utf16Length(StripWhitespace(s)) + |Split(s)| <= Utf16Length(s) + 1
  {
    SplitBlankHead(s);
    assert StripWhitespace(s) == StripWhitespace(s[1..]) by {
      assert StripWhitespace(s) == [] + StripWhitespace(s[1..]);
    }
    assert Utf16Length(s) == 1 + Utf16Length(s[1..]) by {
      WhitespaceIsOneUnit(s[0]);
    }
  }

  /** Splitting after a leading whitespace character: one more piece at most. */
  lemma SplitBlankHead(s: string)
    requires s != [] && IsWhitespace(s[0])
    ensures |Split(s)| <= 1 + |Split(s[1..])|
  {
    var rest := s[1..];
    assert TrimStart(s) == TrimStart(rest);
    if rest != [] && !IsWhitespace(rest[0]) {
      assert TrimStart(rest) == rest;
    }
  }

  /** A leading non-whitespace character joins the first piece and is kept. */
  lemma SplitBoundWordStep(s: string)
    requires s != [] && !IsWhitespace(s[0])
    requires Utf16Length(StripWhitespace(s[1..])) + |Split(s[1..])| <= Utf16Length(s[1..]) + 1
    ensures Utf16Length(StripWhitespace(s)) + |Split(s)| <= Utf16Length(s) + 1
  {
    var rest := StripWhitespace(s[1..]);
    assert |Split(s)| == |Split(s[1..])|;
    assert StripWhitespace(s) == [s[0]] + rest;
    assert ([s[0]] + rest)[0] == s[0] && ([s[0]] + rest)[1..] == rest;
    assert Utf16Length([s[0]] + rest) == Utf16Units(s[0]) + Utf16Length(rest);
  }

  /** Every word boundary holds at least one whitespace character, so the
      total never exceeds the length of the text. */
  lemma TotalCountBound(text: string)
    ensures var w := |Words(text)|;
      Utf16Length(StripWhitespace(text)) + (if w > 1 then w - 1 else 0) <= Utf16Length(text)
  {
    SplitBound(text);
  }

  /** No words exactly when the text is blank. */
  lemma BlankIffNoWords(text: string)
    ensures |Words(text)| == 0 <==> AllWhitespace(text)
  {
    WordsJoinToNonWhitespace(text);
    StripWhitespaceEmpty(text);
    var w := Words(text);
    if w != [] {
      assert w[0] in w;
      assert Concat(w) == w[0] + Concat(w[1..]);
    }
  }

  /** The total is zero exactly when the text is blank; in particular the
      empty text counts 0. */
  lemma BlankIffZeroTotal(text: string)
    ensures TotalCount(text) == 0 <==> AllWhitespace(text)
  {
    BlankIffNoWords(text);
    StripWhitespaceEmpty(text);
    var stripped := StripWhitespace(text);
    if stripped != [] {
      assert Utf16Length(stripped) >= |stripped|;
    }
  }

  /** Leading whitespace characters are dropped by TrimStart one at a time. */
  lemma TrimStartCons(c: char, y: string)
    requires IsWhitespace(c)
    ensures TrimStart([c] + y) == TrimStart(y)
  {
    assert ([c] + y)[0] == c && ([c] + y)[1..] == y;
  }

  /** Split at a leading whitespace character: an empty first piece, then the
      pieces of the text after the run. */
  lemma SplitWhitespaceHead(s: string)
    requires s != [] && IsWhitespace(s[0])
    ensures Split(s) == [""] + Split(TrimStart(s))
  {
  }

  /** Split at a leading non-whitespace character: it joins the first piece. */
  lemma SplitWordHead(s: string)
    requires s != [] && !IsWhitespace(s[0])
    ensures Split(s) == [[s[0]] + Split(s[1..])[0]] + Split(s[1..])[1..]
  {
  }

  lemma AppendAssoc(a: string, b: string, c: string)
    ensures a + (b + c) == a + b + c
  {
  }

  /** Two whitespace characters in a row split the text exactly as one does. */
  lemma {:induction false} SplitCollapsesRun(x: string, w1: char, w2: char, y: string)
    requires IsWhitespace(w1) && IsWhitespace(w2)
    ensures Split(x + [w1, w2] + y) == Split(x + [w1] + y)
    decreases |x|
  {
    var long, short := x + [w1, w2] + y, x + [w1] + y;
    AppendAssoc(x, [w1, w2], y);
    AppendAssoc(x, [w1], y);
    AppendAssoc([w1], [w2], y);
    assert [w1] + [w2] == [w1, w2];
    if x == [] {
      assert long == [w1] + ([w2] + y) && short == [w1] + y;
      TrimStartCons(w1, [w2] + y);
      TrimStartCons(w2, y);
      TrimStartCons(w1, y);
      SplitWhitespaceHead(long);
      SplitWhitespaceHead(short);
    } else if IsWhitespace(x[0]) {
      assert long[0] == x[0] && short[0] == x[0];
      SplitWhitespaceHead(long);
      SplitWhitespaceHead(short);
      TrimStartAppend(x, [w1, w2] + y);
      TrimStartAppend(x, [w1] + y);
      if AllWhitespace(x) {
        TrimStartCons(w1, [w2] + y);
        TrimStartCons(w2, y);
        TrimStartCons(w1, y);
      } else {
        var t := TrimStart(x);
        SplitCollapsesRun(t, w1, w2, y);
        AppendAssoc(t, [w1, w2], y);
        AppendAssoc(t, [w1], y);
      }
    } else {
      assert long[0] == x[0] && short[0] == x[0];
      assert long[1..] == x[1..] + [w1, w2] + y;
      assert short[1..] == x[1..] + [w1] + y;
      SplitWordHead(long);
      SplitWordHead(short);
      SplitCollapsesRun(x[1..], w1, w2, y);
    }
  }

  /** A whitespace run counts as one separator whatever its length: doubling
      a whitespace character leaves the total unchanged. */
  lemma WhitespaceRunCountsOnce(x: string, w1: char, w2: char, y: string)
    requires IsWhitespace(w1) && IsWhitespace(w2)
    ensures TotalCount(x + [w1, w2] + y) == TotalCount(x + [w1] + y)
  {
    SplitCollapsesRun(x, w1, w2, y);
    StripWhitespaceAppend(x + [w1, w2], y);
    StripWhitespaceAppend(x, [w1, w2]);
    StripWhitespaceAppend(x + [w1], y);
    StripWhitespaceAppend(x, [w1]);
    assert StripWhitespace([w1, w2]) == [] == StripWhitespace([w1]) by {
      StripWhitespaceEmpty([w1, w2]);
      StripWhitespaceEmpty([w1]);
    }
  }

  /** The empty text has no words and a total of 0. */
  lemma EmptyTextExample()
    ensures ComputeMetrics("") == Metrics("", 0, 0)
  {
    assert AllWhitespace("");
  }

  lemma StripTwoWords()
    ensures StripWhitespace("a b") == "ab" && Utf16Length("ab") == 2
  {
    assert "a b"[1..] == " b" && " b"[1..] == "b" && "b"[1..] == "" && "ab"[1..] == "b";
    assert StripWhitespace("") == "";
    assert StripWhitespace("b") == [] + "b";
    assert StripWhitespace(" b") == [] + "b";
    assert StripWhitespace("a b") == "a" + "b";
  }

  lemma TrimTwoWords()
    ensures Trim("a b") == "a b" && Trim("a  b") == "a  b"
  {
    TrimOneSpace();
    TrimTwoSpaces();
  }

  lemma TrimOneSpace()
    ensures Trim("a b") == "a b"
  {
    var s := "a b";
    assert s[0] == 'a' && s[|s| - 1] == 'b';
    CharacterClasses();
    TrimKeepsTrimmed(s);
  }

  lemma TrimTwoSpaces()
    ensures Trim("a  b") == "a  b"
  {
    var s := "a  b";
    assert s[0] == 'a' && s[|s| - 1] == 'b';
    CharacterClasses();
    TrimKeepsTrimmed(s);
  }

  lemma CharacterClasses()
    ensures !IsWhitespace('a') && !IsWhitespace('b') && IsWhitespace(' ')
  {
  }

  lemma WordStartsExamples()
    ensures WordStarts("a b", true) == 2 && WordStarts("a  b", true) == 2
  {
    CharacterClasses();
    assert "a  b"[1..] == "  b" && "  b"[1..] == " b";
    assert "a b"[1..] == " b" && " b"[1..] == "b" && "b"[1..] == "";
  }

  lemma CountTwoWords()
    ensures |Words("a b")| == 2 && |Words("a  b")| == 2
  {
    WordCountIsWordStarts("a b");
    WordCountIsWordStarts("a  b");
    WordStartsExamples();
  }

  lemma TotalTwoWords()
    ensures TotalCount("a b") == 3 && TotalCount("a  b") == 3
  {
    TotalOneSpace();
    TotalTwoSpaces();
  }

  lemma TotalOneSpace()
    ensures TotalCount("a b") == 3
  {
    CountTwoWords();
    StripTwoWords();
  }

  lemma TotalTwoSpaces()
    ensures TotalCount("a  b") == 3
  {
    var one, two := "a b", "a  b";
    assert "a" + [' ', ' '] + "b" == two;
    assert "a" + [' '] + "b" == one;
    CharacterClasses();
    WhitespaceRunCountsOnce("a", ' ', ' ', "b");
    TotalOneSpace();
  }

  /** "a b" has two words and a total of 3: two letters and one separator. */
  lemma SingleSpaceExample()
    ensures ComputeMetrics("a b") == Metrics("a b", 2, 3)
  {
    TrimTwoWords();
    CountTwoWords();
    TotalTwoWords();
  }

  /** "a  b" counts exactly as "a b": the two spaces are one separator. */
  lemma DoubleSpaceExample()
    ensures ComputeMetrics("a  b") == Metrics("a  b", 2, 3)
  {
    TrimTwoWords();
    CountTwoWords();
    TotalTwoWords();
  }

  /** Text without whitespace is left as it is by the whitespace removal. */
  lemma {:induction false} StripKeepsWord(s: string)
    requires NoWhitespace(s)
    ensures StripWhitespace(s) == s
    decreases |s|
  {
    if s != [] {
      assert !IsWhitespace(s[0]);
      StripKeepsWord(s[1..]);
      assert [s[0]] + s[1..] == s;
    }
  }

  /** Inside a word, no further word starts. */
  lemma {:induction false} NoWordStartsInsideWord(s: string)
    requires NoWhitespace(s)
    ensures WordStarts(s, false) == 0
    decreases |s|
  {
    if s != [] {
      assert !IsWhitespace(s[0]);
      NoWordStartsInsideWord(s[1..]);
    }
  }

  /** Characters of the Basic Multilingual Plane take one UTF-16 unit each. */
  lemma {:induction false} Utf16LengthBmp(s: string)
    requires forall i :: 0 <= i < |s| ==> s[i] as int < 0x1_0000
    ensures Utf16Length(s) == |s|
    decreases |s|
  {
    if s != [] {
      Utf16LengthBmp(s[1..]);
    }
  }

  /** Text that neither starts nor ends with whitespace is already trimmed. */
  lemma TrimKeepsTrimmed(s: string)
    requires s != [] && !IsWhitespace(s[0]) && !IsWhitespace(s[|s| - 1])
    ensures Trim(s) == s
  {
    assert TrimStart(s) == s;
  }

  /** A single word: one word, and a total equal to its length. */
  lemma SingleWordMetrics(s: string)
    requires s != [] && NoWhitespace(s)
    ensures ComputeMetrics(s) == Metrics(s, 1, Utf16Length(s))
  {
    TrimKeepsTrimmed(s);
    WordCountIsWordStarts(s);
    NoWordStartsInsideWord(s[1..]);
    assert WordStarts(s, true) == 1;
    StripKeepsWord(s);
    assert TotalCount(s) == Utf16Length(s);
  }
}
