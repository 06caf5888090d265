/** The code highlighter (lib/code-highlight.js): `highlightCode` picks the
    highlighter list of a code block's language, and `highlightSegment`
    cuts the code around the first highlighter's match and highlights both
    sides again with the whole list.

    Unlike the inline segmenters, the highlighters' regexes have no
    leading `(.*)`, so the engine takes the LEFTMOST index at which the
    pattern matches. Several are multiline (`m`): `^` then holds at index
    0 and after each line terminator, `$` before each line terminator and
    at the end, and `.*` stops at a line terminator. `\s` is the
    ECMAScript white space and line terminator set, `\w` and `\b` are
    ASCII. */
module CodeHighlight {
  import opened Wrappers
  import opened JsText

  /** `CodeHighlightType`. */
  datatype Kind = CommentKind | KeywordKind | StringKind | HeadingKind

  /** `HighlightedCodeSegment`: a piece of the code, typed or plain. */
  datatype Piece = Piece(text: string, kind: Option<Kind>)

  /** The highlighters of the language lists, grouped by the shape of
      their pattern. */
  datatype Pattern =
    | LineComment(marker: string)           // ^(\s*)(#.*)$ and ^(\s*)(\/\/.*)$, m
    | Quoted(quote: char)                   // ("[^\\]*?"), ('[^\\]*?'), (`[^\\]*?`)
    | Enclosed(open: string, close: string) // \/\*[\s\S]*?\*\/ and <!--[\s\S]*?-->
    | TagName                               // (<\/?)([-\w]+)
    | Selector                              // ^(\s*)([^\s{]+)(\s*\{), m
    | Keywords(words: seq<string>)          // \b(w0|w1|...)\b
    | Heading(asWritten: bool)              // ^(\s*)(#+)(.*)$, m

  /** What the patterns need of their parameters: a non-empty marker
      on one line, a quote other than the backslash, non-empty delimiters,
      and keywords made of word characters. With these, every match is
      non-empty. */
  predicate Usable(p: Pattern) {
    match p
    case LineComment(m) => |m| >= 1 && NoLineTerminator(m)
    case Quoted(q) => q != '\\'
    case Enclosed(o, c) => |o| >= 1 && |c| >= 1
    case Keywords(ws) => forall j :: 0 <= j < |ws| ==> IsWord(ws[j])
    case _ => true
  }

  /** A highlighter: a pattern with usable parameters. */
  type Highlighter = p: Pattern | Usable(p) witness TagName

  const SharpComment: Highlighter := LineComment("#")
  const SlashComment: Highlighter := LineComment("//")
  const CStyleComment: Highlighter := Enclosed("/*", "*/")
  const HtmlComment: Highlighter := Enclosed("<!--", "-->")
  const JsKeyword: Highlighter := KeywordHighlighter(["return", "const", "let", "for", "while", "break", "continue", "import", "export"])
  const PythonKeyword: Highlighter := KeywordHighlighter(["return", "def", "class", "import", "from"])
  const CssKeyword: Highlighter := KeywordHighlighter(["import"])
  /** The heading highlighter as written: its segment is `match[0]`. */
  const MarkdownHeading: Highlighter := Heading(true)
  /** The heading highlighter with its segment starting at the `#` run. */
  const IntendedHeading: Highlighter := Heading(false)

  /** A keyword highlighter for a list of lower-case words. */
  function KeywordHighlighter(words: seq<string>): (h: Highlighter)
    requires forall j :: 0 <= j < |words| ==> |words[j]| >= 1
    requires forall j, k :: 0 <= j < |words| && 0 <= k < |words[j]| ==> 'a' <= words[j][k] <= 'z'
    ensures h == Keywords(words)
  {
    assert forall j :: 0 <= j < |words| ==> IsWord(words[j]);
    Keywords(words)
  }

  /** A match, as the highlighter turns it into a result: `before` is
      `s[..cut]`, the segment text is `s[start..end]` and `after` is
      `s[end..]`. Every highlighter but the heading one as written has
      `start == cut`. */
  datatype Span = Span(start: nat, cut: nat, end: nat)

  /** What a highlighter returns when it matches. */
  datatype Cut = Cut(before: string, piece: Piece, after: string)

  predicate ValidSpan(s: string, sp: Span) {
    sp.start <= sp.cut < sp.end <= |s|
  }

  function KindOf(h: Pattern): Kind {
    match h
    case LineComment(_) => CommentKind
    case Quoted(_) => StringKind
    case Enclosed(_, _) => CommentKind
    case TagName => KeywordKind
    case Selector => KeywordKind
    case Keywords(_) => KeywordKind
    case Heading(_) => HeadingKind
  }

  // -----------------------------------------------------------------------
  // Pieces of the patterns

  /** `^` in multiline mode. */
  predicate LineStart(s: string, i: nat) {
    i == 0 || (i <= |s| && IsLineTerminator(s[i - 1]))
  }

  predicate IsLineChar(c: char) { !IsLineTerminator(c) }

  /** Where `.*` stops, and `$` in multiline mode holds, from `from` on:
      the next line terminator or the end (see `LineEndMeans`). */
  function LineEnd(s: string, from: nat): (e: nat)
    requires from <= |s|
    ensures from <= e <= |s|
  {
    from + RunLength(s, from, IsLineChar)
  }

  lemma LineEndMeans(s: string, from: nat)
    requires from <= |s|
    ensures forall k :: from <= k < LineEnd(s, from) ==> !IsLineTerminator(s[k])
    ensures LineEnd(s, from) < |s| ==> IsLineTerminator(s[LineEnd(s, from)])
  {
    var n := RunLength(s, from, IsLineChar);
    assert forall k :: from <= k < from + n ==> IsLineChar(s[k]);
  }

  /** `\s*` (greedy) from `from` on: its length (see `BlanksMeans`). */
  function Blanks(s: string, from: nat): (n: nat)
    requires from <= |s|
    ensures from + n <= |s|
  {
    RunLength(s, from, IsWhiteSpace)
  }

  lemma BlanksMeans(s: string, from: nat)
    requires from <= |s|
    ensures forall k :: from <= k < from + Blanks(s, from) ==> IsWhiteSpace(s[k])
    ensures from + Blanks(s, from) < |s| ==> !IsWhiteSpace(s[from + Blanks(s, from)])
  {
    var n := RunLength(s, from, IsWhiteSpace);
    assert forall k :: from <= k < from + n ==> IsWhiteSpace(s[k]);
  }

  /** The first index from `from` on where `t` occurs, or `|s|` (see
      `FindTextMeans`). */
  function FindText(s: string, from: nat, t: string): (k: nat)
    requires from <= |s|
    ensures from <= k <= |s|
    ensures k < |s| ==> StartsWith(s[k..], t)
    decreases |s| - from
  {
    if from == |s| then |s|
    else if StartsWith(s[from..], t) then from
    else FindText(s, from + 1, t)
  }

  lemma {:induction false} FindTextMeans(s: string, from: nat, t: string)
    requires from <= |s|
    ensures forall j :: from <= j < FindText(s, from, t) ==> !StartsWith(s[j..], t)
    decreases |s| - from
  {
    if from < |s| && !StartsWith(s[from..], t) {
      FindTextMeans(s, from + 1, t);
    }
  }

  /** The first index from `from` on holding `a` or `b`, or `|s|` (see
      `FindEitherMeans`). */
  function FindEither(s: string, from: nat, a: char, b: char): (k: nat)
    requires from <= |s|
    ensures from <= k <= |s|
    ensures k < |s| ==> s[k] == a || s[k] == b
    decreases |s| - from
  {
    if from == |s| || s[from] == a || s[from] == b then from else FindEither(s, from + 1, a, b)
  }

  lemma {:induction false} FindEitherMeans(s: string, from: nat, a: char, b: char)
    requires from <= |s|
    ensures forall j :: from <= j < FindEither(s, from, a, b) ==> s[j] != a && s[j] != b
    decreases |s| - from
  {
    if from < |s| && s[from] != a && s[from] != b {
      FindEitherMeans(s, from + 1, a, b);
    }
  }

  // -----------------------------------------------------------------------
  // Each pattern tried at one index. The functions carry the shape of the
  // match; the `...Means` lemmas say what the pattern matched.

  /** `^(\s*)(M.*)$` at `i`, for the marker `M` (`#` or `//`): the blank
      run from a line start, then the marker and the rest of its line.
      The blanks stay in `before`. */
  function LineCommentAt(marker: string, s: string, i: nat): (r: Option<Span>)
    requires i <= |s|
    requires |marker| >= 1 && NoLineTerminator(marker)
    ensures r.Some? ==> ValidSpan(s, r.value) && r.value.start == r.value.cut
  {
    if !LineStart(s, i) then None
    else
      var c := i + Blanks(s, i);
      if !StartsWith(s[c..], marker) then None
      else
        var e := LineEnd(s, c);
        LineEndMeans(s, c);
        assert s[c..][..|marker|] == marker;
        assert c < |s| && s[c] == marker[0];
        assert !IsLineTerminator(s[c]);
        Some(Span(c, c, e))
  }

  lemma LineCommentAtMeans(marker: string, s: string, i: nat)
    requires i <= |s|
    requires |marker| >= 1 && NoLineTerminator(marker)
    ensures var r := LineCommentAt(marker, s, i);
      r.Some? ==>
        && LineStart(s, i) && i <= r.value.cut
        && (forall k :: i <= k < r.value.cut ==> IsWhiteSpace(s[k]))
        && StartsWith(s[r.value.cut..], marker)
        && (forall k :: r.value.cut <= k < r.value.end ==> !IsLineTerminator(s[k]))
        && (r.value.end == |s| || IsLineTerminator(s[r.value.end]))
  {
    if LineStart(s, i) {
      var c := i + Blanks(s, i);
      BlanksMeans(s, i);
      if c <= |s| { LineEndMeans(s, c); }
    }
  }

  /** `^(\s*)(#+)(.*)$` at `i`: a run of `#` after the blanks and the
      rest of the line. `match[0]` is the segment text, blanks included,
      while `before` also keeps the blanks (as written); the intended
      segment starts at the `#` run. */
  function HeadingAt(s: string, i: nat, asWritten: bool): (r: Option<Span>)
    requires i <= |s|
    ensures r.Some? ==> ValidSpan(s, r.value) && r.value.start == (if asWritten then i else r.value.cut)
  {
    if !LineStart(s, i) then None
    else
      var c := i + Blanks(s, i);
      if c == |s| || s[c] != '#' then None
      else Some(Span(if asWritten then i else c, c, LineEnd(s, c)))
  }

  lemma HeadingAtMeans(s: string, i: nat, asWritten: bool)
    requires i <= |s|
    ensures var r := HeadingAt(s, i, asWritten);
      r.Some? ==>
        && LineStart(s, i) && i <= r.value.cut
        && (forall k :: i <= k < r.value.cut ==> IsWhiteSpace(s[k]))
        && s[r.value.cut] == '#'
        && (forall k :: r.value.cut <= k < r.value.end ==> !IsLineTerminator(s[k]))
        && (r.value.end == |s| || IsLineTerminator(s[r.value.end]))
  {
    if LineStart(s, i) {
      var c := i + Blanks(s, i);
      BlanksMeans(s, i);
      LineEndMeans(s, c);
    }
  }

  predicate IsSelectorChar(c: char) { !IsWhiteSpace(c) && c != '{' }

  /** `^(\s*)([^\s{]+)(\s*\{)` at `i`: the selector is the run of
      characters other than white space and `{`, followed by blanks and
      `{`; `after` starts right after the selector. */
  function SelectorAt(s: string, i: nat): (r: Option<Span>)
    requires i <= |s|
    ensures r.Some? ==> ValidSpan(s, r.value) && r.value.start == r.value.cut
  {
    if !LineStart(s, i) then None
    else
      var c := i + Blanks(s, i);
      var n := RunLength(s, c, IsSelectorChar);
      if n == 0 then None
      else
        var b := c + n + Blanks(s, c + n);
        if b < |s| && s[b] == '{' then Some(Span(c, c, c + n)) else None
  }

  lemma SelectorAtMeans(s: string, i: nat)
    requires i <= |s|
    ensures var r := SelectorAt(s, i);
      r.Some? ==>
        && LineStart(s, i) && i <= r.value.cut
        && (forall k :: i <= k < r.value.cut ==> IsWhiteSpace(s[k]))
        && (forall k :: r.value.cut <= k < r.value.end ==> IsSelectorChar(s[k]))
        && r.value.end < |s|
        && (forall k :: r.value.end <= k < r.value.end + Blanks(s, r.value.end) ==> IsWhiteSpace(s[k]))
        && var b := r.value.end + Blanks(s, r.value.end); b < |s| && s[b] == '{'
  {
    if LineStart(s, i) {
      var c := i + Blanks(s, i);
      BlanksMeans(s, i);
      var n := RunLength(s, c, IsSelectorChar);
      if n > 0 {
        BlanksMeans(s, c + n);
        var b := c + n + Blanks(s, c + n);
        if b < |s| && s[b] == '{' {
          assert SelectorAt(s, i) == Some(Span(c, c, c + n));
        }
      }
    }
  }

  /** `(Q[^\\]*?Q)` at `i`: the lazy class stops at the first `Q`, and a
      backslash before it makes the match at `i` fail. */
  function QuotedAt(q: char, s: string, i: nat): (r: Option<Span>)
    requires i <= |s|
    requires q != '\\'
    ensures r.Some? ==> ValidSpan(s, r.value) && r.value.start == r.value.cut == i
  {
    if i == |s| || s[i] != q then None
    else
      var k := FindEither(s, i + 1, q, '\\');
      if k < |s| && s[k] == q then Some(Span(i, i, k + 1)) else None
  }

  /** The quoted-string pattern matches at `i` exactly when a quote opens
      there and the next quote comes before any backslash; the match runs
      to that quote. */
  lemma QuotedAtMeans(q: char, s: string, i: nat, e: nat)
    requires i <= |s| && q != '\\'
    ensures QuotedAt(q, s, i) == Some(Span(i, i, e)) <==>
      && i + 2 <= e <= |s|
      && s[i] == q && s[e - 1] == q
      && forall k :: i < k < e - 1 ==> s[k] != q && s[k] != '\\'
  {
    if i < |s| && s[i] == q {
      FindEitherMeans(s, i + 1, q, '\\');
      var k := FindEither(s, i + 1, q, '\\');
      if i + 2 <= e <= |s| && s[e - 1] == q && forall k :: i < k < e - 1 ==> s[k] != q && s[k] != '\\' {
        assert !(k < e - 1);
        assert !(e - 1 < k);
      }
    }
  }

  /** `O[\s\S]*?C` at `i`: the opening text, then the first closing text
      after it. */
  function EnclosedAt(open: string, close: string, s: string, i: nat): (r: Option<Span>)
    requires i <= |s|
    requires |open| >= 1 && |close| >= 1
    ensures r.Some? ==> ValidSpan(s, r.value) && r.value.start == r.value.cut == i
  {
    if !StartsWith(s[i..], open) then None
    else
      var k := FindText(s, i + |open|, close);
      if k == |s| then None
      else
        assert s[k..][..|close|] == close;
        Some(Span(i, i, k + |close|))
  }

  lemma EnclosedAtMeans(open: string, close: string, s: string, i: nat)
    requires i <= |s|
    requires |open| >= 1 && |close| >= 1
    ensures var r := EnclosedAt(open, close, s, i);
      r.Some? ==>
        && StartsWith(s[i..], open) && i + |open| + |close| <= r.value.end
        && s[r.value.end - |close|..r.value.end] == close
        && forall k :: i + |open| <= k < r.value.end - |close| ==> !StartsWith(s[k..], close)
  {
    if StartsWith(s[i..], open) {
      var k := FindText(s, i + |open|, close);
      FindTextMeans(s, i + |open|, close);
      if k < |s| {
        assert s[k..][..|close|] == close;
      }
    }
  }

  predicate IsTagChar(c: char) { c == '-' || IsWordChar(c) }

  /** `(<\/?)([-\w]+)` at `i`: the tag name after `<` or `</`. */
  function TagAt(s: string, i: nat): (r: Option<Span>)
    requires i <= |s|
    ensures r.Some? ==> ValidSpan(s, r.value) && r.value.start == r.value.cut
  {
    if i == |s| || s[i] != '<' then None
    else
      var c := if i + 1 < |s| && s[i + 1] == '/' then i + 2 else i + 1;
      var n := RunLength(s, c, IsTagChar);
      if n == 0 then None else Some(Span(c, c, c + n))
  }

  lemma TagAtMeans(s: string, i: nat)
    requires i <= |s|
    ensures var r := TagAt(s, i);
      r.Some? ==>
        && i < |s| && s[i] == '<'
        && (r.value.cut == i + 1 || (r.value.cut == i + 2 && s[i + 1] == '/'))
        && (forall k :: r.value.cut <= k < r.value.end ==> IsTagChar(s[k]))
        && (r.value.end == |s| || !IsTagChar(s[r.value.end]))
  {
  }

  /** A word of letters only. */
  predicate IsWord(w: string) {
    |w| >= 1 && forall k :: 0 <= k < |w| ==> IsWordChar(w[k])
  }

  /** `\b` before a word-character at `i`. */
  predicate WordStart(s: string, i: nat) {
    i == 0 || (i <= |s| && !IsWordChar(s[i - 1]))
  }

  /** `\b` after a word-character ending at `j`. */
  predicate WordEnd(s: string, j: nat) {
    j == |s| || (j < |s| && !IsWordChar(s[j]))
  }

  /** The first alternative of `\b(w0|w1|...)\b` that matches at `i`,
      from alternative `from` on (see `WordAtMeans`). */
  function WordAt(words: seq<string>, s: string, i: nat, from: nat): (r: Option<nat>)
    requires i <= |s| && from <= |words|
    ensures r.Some? ==> from <= r.value < |words| && StartsWith(s[i..], words[r.value])
    decreases |words| - from
  {
    if from == |words| then None
    else if StartsWith(s[i..], words[from]) && WordEnd(s, i + |words[from]|) then Some(from)
    else WordAt(words, s, i, from + 1)
  }

  lemma {:induction false} WordAtMeans(words: seq<string>, s: string, i: nat, from: nat)
    requires i <= |s| && from <= |words|
    ensures var r := WordAt(words, s, i, from);
      && (r.Some? ==> WordEnd(s, i + |words[r.value]|))
      && forall j :: from <= j < (if r.Some? then r.value else |words|) ==>
        !(StartsWith(s[i..], words[j]) && WordEnd(s, i + |words[j]|))
    decreases |words| - from
  {
    if from < |words| && !(StartsWith(s[i..], words[from]) && WordEnd(s, i + |words[from]|)) {
      WordAtMeans(words, s, i, from + 1);
    }
  }

  function KeywordAt(words: seq<string>, s: string, i: nat): (r: Option<Span>)
    requires i <= |s|
    requires forall j :: 0 <= j < |words| ==> IsWord(words[j])
    ensures r.Some? ==> ValidSpan(s, r.value) && r.value.start == r.value.cut == i
  {
    if !WordStart(s, i) then None
    else match WordAt(words, s, i, 0)
      case None => None
      case Some(j) =>
        var w := words[j];
        assert IsWord(w);
        assert s[i..][..|w|] == w;
        Some(Span(i, i, i + |w|))
  }

  /** A keyword matches at `i` only as a whole word of the list: `for` is
      no keyword inside `format`. */
  lemma KeywordAtMeans(words: seq<string>, s: string, i: nat)
    requires i <= |s|
    requires forall j :: 0 <= j < |words| ==> IsWord(words[j])
    ensures var r := KeywordAt(words, s, i);
      r.Some? ==>
        && WordStart(s, i) && WordEnd(s, r.value.end)
        && s[i..r.value.end] in words
  {
    if WordStart(s, i) {
      WordAtMeans(words, s, i, 0);
      match WordAt(words, s, i, 0)
      case None =>
      case Some(j) =>
        var w := words[j];
        assert s[i..][..|w|] == w;
        assert s[i..i + |w|] == w;
    }
  }

  /** The highlighter's pattern tried at index `i`. */
  function At(h: Highlighter, s: string, i: nat): (r: Option<Span>)
    requires i <= |s|
    ensures r.Some? ==> ValidSpan(s, r.value)
    ensures r.Some? && h != MarkdownHeading ==> r.value.start == r.value.cut
  {
    match h
    case LineComment(m) => LineCommentAt(m, s, i)
    case Quoted(q) => QuotedAt(q, s, i)
    case Enclosed(o, c) => EnclosedAt(o, c, s, i)
    case TagName => TagAt(s, i)
    case Selector => SelectorAt(s, i)
    case Keywords(ws) => KeywordAt(ws, s, i)
    case Heading(asWritten) => HeadingAt(s, i, asWritten)
  }

  /** The leftmost index from `i` on at which the pattern matches, the
      end included, and the match there. */
  function LeftmostFrom(h: Highlighter, s: string, i: nat): (r: Option<(nat, Span)>)
    requires i <= |s|
    ensures r.Some? ==> i <= r.value.0 <= |s| && At(h, s, r.value.0) == Some(r.value.1)
    ensures forall k :: i <= k < (if r.Some? then r.value.0 else |s| + 1) ==> At(h, s, k).None?
    decreases |s| - i
  {
    match At(h, s, i)
    case Some(sp) => Some((i, sp))
    case None => if i == |s| then None else LeftmostFrom(h, s, i + 1)
  }

  /** `code.match(pattern)`: the match at the leftmost index where the
      pattern matches. */
  function Leftmost(h: Highlighter, s: string): (r: Option<(nat, Span)>)
    ensures r.Some? ==> r.value.0 <= |s| && At(h, s, r.value.0) == Some(r.value.1)
    ensures forall i :: 0 <= i < (if r.Some? then r.value.0 else |s| + 1) ==> At(h, s, i).None?
  {
    LeftmostFrom(h, s, 0)
  }

  /** A highlighter applied to `code`: `{}` when its pattern matches
      nowhere, otherwise the typed segment and the text around it. The
      segment is never empty, and both sides are shorter than the code. */
  function Apply(h: Highlighter, s: string): (r: Option<Cut>)
    ensures r.Some? ==> r.value.piece.text != "" && r.value.piece.kind == Some(KindOf(h))
    ensures r.Some? ==> |r.value.before| < |s| && |r.value.after| < |s|
    ensures r.Some? && h != MarkdownHeading ==> r.value.before + r.value.piece.text + r.value.after == s
  {
    match Leftmost(h, s)
    case None => None
    case Some((_, sp)) =>
      var before, text, after := s[..sp.cut], s[sp.start..sp.end], s[sp.end..];
      assert h != MarkdownHeading ==> before + text + after == s by {
        if h != MarkdownHeading {
          assert sp.start == sp.cut;
          assert s == s[..sp.cut] + s[sp.cut..sp.end] + s[sp.end..];
        }
      }
      Some(Cut(before, Piece(text, Some(KindOf(h))), after))
  }

  // -----------------------------------------------------------------------
  // highlightSegment and highlightCode

  /** Whether highlighter `h` yields a segment of `s`. */
  predicate Cuts(s: string, h: Highlighter) {
    Apply(h, s).Some?
  }

  /** The first highlighter of the list that yields a segment, and what
      it yields. */
  function FirstCut(hs: seq<Highlighter>, s: string): (r: Option<(nat, Cut)>)
    ensures r.Some? ==> r.value.0 < |hs| && Apply(hs[r.value.0], s) == Some(r.value.1)
    ensures forall j :: 0 <= j < (if r.Some? then r.value.0 else |hs|) ==> Apply(hs[j], s).None?
  {
    var f := FindIndex(hs, h => Cuts(s, h), 0);
    if f.Some? then Some((f.value, Apply(hs[f.value], s).value)) else None
  }

  /** `highlightSegment`: "" gives no segment; otherwise the first
      highlighter of the list that yields a segment splits the code, and
      both sides are highlighted again with the whole list; when none
      does, the code is one plain segment. No segment is empty. */
  function HighlightSegment(hs: seq<Highlighter>, code: string): (r: seq<Piece>)
    ensures r == [] <==> code == ""
    ensures forall p :: p in r ==> p.text != ""
    decreases |code|
  {
    if code == "" then []
    else match FirstCut(hs, code)
      case None => [Piece(code, None)]
      case Some((_, c)) => HighlightSegment(hs, c.before) + [c.piece] + HighlightSegment(hs, c.after)
  }

  /** The first highlighter of the list that yields a segment decides
      the cut. */
  lemma HighlightFirstWins(hs: seq<Highlighter>, code: string, j: nat)
    requires code != ""
    requires j < |hs| && Apply(hs[j], code).Some?
    requires forall i :: 0 <= i < j ==> Apply(hs[i], code).None?
    ensures var c := Apply(hs[j], code).value;
      HighlightSegment(hs, code) == HighlightSegment(hs, c.before) + [c.piece] + HighlightSegment(hs, c.after)
  {
    FindIndexIs(hs, h => Cuts(code, h), Some(j));
  }

  /** Where no highlighter of the list yields a segment, the code stays
      one plain piece. */
  lemma HighlightPlain(hs: seq<Highlighter>, code: string)
    requires code != ""
    requires forall i :: 0 <= i < |hs| ==> Apply(hs[i], code).None?
    ensures HighlightSegment(hs, code) == [Piece(code, None)]
  {
    FindIndexIs(hs, h => Cuts(code, h), None);
  }

  /** The text of the pieces one after the other:
      `segments.map((s) => s.text).join("")`. */
  function Texts(ps: seq<Piece>): string {
    if ps == [] then "" else ps[0].text + Texts(ps[1..])
  }

  lemma {:induction false} TextsAppend(a: seq<Piece>, b: seq<Piece>)
    ensures Texts(a + b) == Texts(a) + Texts(b)
  {
    if a != [] {
      assert (a + b)[1..] == a[1..] + b;
      TextsAppend(a[1..], b);
    } else {
      assert a + b == b;
    }
  }

  lemma TextsOne(p: Piece)
    ensures Texts([p]) == p.text
  {
    assert [p][1..] == [];
  }

  lemma TextsPair(a: Piece, b: Piece)
    ensures Texts([a, b]) == a.text + b.text
  {
    assert [a, b][1..] == [b];
    TextsOne(b);
  }

  /** Highlighting loses and adds nothing: the pieces' texts spell the
      code again, for every list without the heading highlighter as
      written. */
  lemma {:induction false} Lossless(hs: seq<Highlighter>, code: string)
    requires MarkdownHeading !in hs
    ensures Texts(HighlightSegment(hs, code)) == code
    decreases |code|
  {
    if code != "" {
      match FirstCut(hs, code)
      case None =>
        TextsOne(Piece(code, None));
      case Some((j, c)) =>
        assert hs[j] != MarkdownHeading;
        Lossless(hs, c.before);
        Lossless(hs, c.after);
        var left, right := HighlightSegment(hs, c.before), HighlightSegment(hs, c.after);
        TextsAppend(left + [c.piece], right);
        TextsAppend(left, [c.piece]);
        TextsOne(c.piece);
    }
  }

  /** A plain piece is text in which no highlighter of the list finds
      anything: highlighting stops only where nothing is left to mark. */
  lemma {:induction false} PlainPiecesUnmatched(hs: seq<Highlighter>, code: string)
    ensures forall p :: p in HighlightSegment(hs, code) && p.kind.None? ==>
      forall h :: h in hs ==> Apply(h, p.text).None?
    decreases |code|
  {
    if code != "" {
      match FirstCut(hs, code)
      case None =>
        forall h | h in hs ensures Apply(h, code).None? {
          var j :| 0 <= j < |hs| && hs[j] == h;
        }
      case Some((_, c)) =>
        PlainPiecesUnmatched(hs, c.before);
        PlainPiecesUnmatched(hs, c.after);
    }
  }

  /** Every typed piece carries the kind of a highlighter of the list. */
  lemma {:induction false} KindsFromList(hs: seq<Highlighter>, code: string)
    ensures forall p :: p in HighlightSegment(hs, code) && p.kind.Some? ==>
      exists h :: h in hs && KindOf(h) == p.kind.value
    decreases |code|
  {
    if code != "" {
      match FirstCut(hs, code)
      case None =>
      case Some((j, c)) =>
        assert hs[j] in hs && KindOf(hs[j]) == c.piece.kind.value;
        KindsFromList(hs, c.before);
        KindsFromList(hs, c.after);
    }
  }

  const JavaScriptList: seq<Highlighter> :=
    [SlashComment, Quoted('`'), Quoted('"'), Quoted('\''), JsKeyword]
  const MarkdownList: seq<Highlighter> := [MarkdownHeading]
  const ShList: seq<Highlighter> := [SharpComment, Quoted('"'), Quoted('\'')]
  const PythonList: seq<Highlighter> := [SharpComment, Quoted('"'), Quoted('\''), PythonKeyword]
  const CssList: seq<Highlighter> := [CStyleComment, Selector, Quoted('"'), Quoted('\''), CssKeyword]
  const HtmlList: seq<Highlighter> := [HtmlComment, TagName, Quoted('"'), Quoted('\'')]

  /** The `highlighters` table's own entries. */
  function OwnList(language: string): Option<seq<Highlighter>> {
    if language == "javascript" then Some(JavaScriptList)
    else if language == "markdown" then Some(MarkdownList)
    else if language == "sh" then Some(ShList)
    else if language == "python" then Some(PythonList)
    else if language == "css" then Some(CssList)
    else if language == "html" then Some(HtmlList)
    else None
  }

  /** Only the markdown list holds the heading highlighter as written. */
  lemma OnlyMarkdownHasHeading(language: string)
    requires OwnList(language).Some?
    ensures OwnList(language).value != MarkdownList ==> MarkdownHeading !in OwnList(language).value
  {
    var hs := OwnList(language).value;
    assert hs in {JavaScriptList, MarkdownList, ShList, PythonList, CssList, HtmlList};
  }

  /** The names an object literal inherits from `Object.prototype`
      (section 20.1.3 of ECMA-262 and its Annex B.2.2). Looking one of
      them up in `highlighters` gives a function or an object, which is
      truthy and not iterable. */
  const Inherited: set<string> := {
    "constructor", "hasOwnProperty", "isPrototypeOf", "propertyIsEnumerable",
    "toLocaleString", "toString", "valueOf", "__proto__",
    "__defineGetter__", "__defineSetter__", "__lookupGetter__", "__lookupSetter__"
  }

  /** No name of the table, and no missing language, is inherited. */
  lemma OwnNotInherited(language: string)
    requires language == "" || OwnList(language).Some?
    ensures language !in Inherited
  {
    assert |language| in {0, 2, 3, 4, 6, 8, 10};
    if |language| == 8 {
      assert language == "markdown";
      assert language[0] != "toString"[0];
    }
  }

  /** The `TypeError` of `for (... of ...)` over a non-iterable value. */
  datatype HighlightError = NotIterable(language: string)

  /** `highlightCode` as written: no language, or one the table lacks,
      gives the whole code as one plain segment; a language the table
      inherits reaches the highlighter loop, which throws unless the code
      is empty. */
  function HighlightCode(code: string, language: string): (r: Result<seq<Piece>, HighlightError>)
    ensures r.Failure? <==> language in Inherited && code != ""
    ensures OwnList(language).None? && language !in Inherited ==> r == Success([Piece(code, None)])
  {
    if language == "" then
      OwnNotInherited(language);
      Success([Piece(code, None)])
    else match OwnList(language)
      case Some(hs) =>
        OwnNotInherited(language);
        Success(HighlightSegment(hs, code))
      case None =>
        if language !in Inherited then Success([Piece(code, None)])
        else if code == "" then Success([])
        else Failure(NotIterable(language))
  }

  /** Apart from markdown, whatever `highlightCode` returns spells the
      code again. */
  lemma HighlightCodeLossless(code: string, language: string)
    requires language != "markdown"
    requires HighlightCode(code, language).Success?
    ensures Texts(HighlightCode(code, language).value) == code
  {
    if language != "" && OwnList(language).Some? {
      OnlyMarkdownHasHeading(language);
      Lossless(OwnList(language).value, code);
    } else {
      TextsOne(Piece(code, None));
    }
  }

  /** `highlightCode` with an own-property lookup and the heading segment
      starting at its `#` run. */
  function HighlightCodeIntended(code: string, language: string): (r: seq<Piece>)
    ensures Texts(r) == code
  {
    match OwnList(language)
    case None =>
      TextsOne(Piece(code, None));
      [Piece(code, None)]
    case Some(hs) =>
      OnlyMarkdownHasHeading(language);
      var fixed := if hs == MarkdownList then [IntendedHeading] else hs;
      Lossless(fixed, code);
      HighlightSegment(fixed, code)
  }
  // -----------------------------------------------------------------------
  // The markdown heading highlighter

  /** Blanks on one line. */
  predicate IsBlankRun(b: string) {
    forall k :: 0 <= k < |b| ==> IsWhiteSpace(b[k]) && !IsLineTerminator(b[k])
  }

  /** A one-line heading `rest` indented by `blanks`: the heading pattern
      matches at index 0, with the blanks before the `#` run. */
  lemma HeadingSpan(blanks: string, rest: string, asWritten: bool)
    requires IsBlankRun(blanks)
    requires rest != "" && rest[0] == '#' && NoLineTerminator(rest)
    ensures var s := blanks + rest;
      HeadingAt(s, 0, asWritten) == Some(Span(if asWritten then 0 else |blanks|, |blanks|, |s|))
  {
    var s := blanks + rest;
    var c := |blanks|;
    assert s[c] == '#';
    assert forall k :: 0 <= k < c ==> s[k] == blanks[k];
    assert Blanks(s, 0) == c;
    assert forall k :: c <= k < |s| ==> s[k] == rest[k - c];
    assert LineEnd(s, c) == |s|;
  }

  /** The heading highlighter on an indented one-line heading. */
  lemma HeadingCut(blanks: string, rest: string, asWritten: bool)
    requires IsBlankRun(blanks)
    requires rest != "" && rest[0] == '#' && NoLineTerminator(rest)
    ensures var s := blanks + rest;
      Apply(Heading(asWritten), s)
        == Some(Cut(blanks, Piece(if asWritten then s else rest, Some(HeadingKind)), ""))
  {
    var s := blanks + rest;
    HeadingSpan(blanks, rest, asWritten);
    var l := Leftmost(Heading(asWritten), s);
    assert l == Some((0, Span(if asWritten then 0 else |blanks|, |blanks|, |s|)));
    assert s[..|blanks|] == blanks && s[|blanks|..] == rest && s[0..|s|] == s && s[|s|..] == "";
  }

  /** Blanks on one line hold no heading. */
  lemma NoHeadingInBlanks(blanks: string, asWritten: bool)
    requires IsBlankRun(blanks)
    ensures Apply(Heading(asWritten), blanks).None?
  {
    forall i | 0 <= i <= |blanks| ensures HeadingAt(blanks, i, asWritten).None? {
      if i == 0 { assert Blanks(blanks, 0) == |blanks|; }
    }
  }

  /** The pieces of an indented one-line heading. As written, the
      highlighter keeps the blanks in `before` and also puts them at the
      head of the heading segment, so the pieces spell them twice: "  # a"
      comes out as "    # a". */
  lemma HeadingDuplicatesBlanks(blanks: string, rest: string)
    requires IsBlankRun(blanks) && blanks != ""
    requires rest != "" && rest[0] == '#' && NoLineTerminator(rest)
    ensures HighlightSegment(MarkdownList, blanks + rest)
      == [Piece(blanks, None), Piece(blanks + rest, Some(HeadingKind))]
    ensures Texts(HighlightSegment(MarkdownList, blanks + rest)) == blanks + (blanks + rest)
    ensures Texts(HighlightSegment(MarkdownList, blanks + rest)) != blanks + rest
  {
    HeadingPieces(blanks, rest, true);
    var a, b := Piece(blanks, None), Piece(blanks + rest, Some(HeadingKind));
    TextsPair(a, b);
    assert |a.text + b.text| == |blanks| + |blanks + rest|;
  }

  /** With the segment starting at the `#` run, the same text is cut into
      the blanks and the heading. */
  lemma HeadingIntendedSplits(blanks: string, rest: string)
    requires IsBlankRun(blanks) && blanks != ""
    requires rest != "" && rest[0] == '#' && NoLineTerminator(rest)
    ensures HighlightSegment([IntendedHeading], blanks + rest)
      == [Piece(blanks, None), Piece(rest, Some(HeadingKind))]
  {
    HeadingPieces(blanks, rest, false);
  }

  lemma HeadingPieces(blanks: string, rest: string, asWritten: bool)
    requires IsBlankRun(blanks) && blanks != ""
    requires rest != "" && rest[0] == '#' && NoLineTerminator(rest)
    ensures HighlightSegment([Heading(asWritten)], blanks + rest)
      == [Piece(blanks, None), Piece(if asWritten then blanks + rest else rest, Some(HeadingKind))]
  {
    var hs := [Heading(asWritten)];
    var s := blanks + rest;
    HeadingCut(blanks, rest, asWritten);
    NoHeadingInBlanks(blanks, asWritten);
    HighlightPlain(hs, blanks);
    HighlightFirstWins(hs, s, 0);
    var c := Apply(hs[0], s).value;
    assert c.before == blanks && c.after == "";
    assert HighlightSegment(hs, "") == [];
  }
}
