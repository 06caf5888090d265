/** What the block reader loop guarantees across readers: where it can
    stop early, that it consumes a document without stray line
    terminators whole, how the list reader distributes lines over items,
    that a closed code block can be written back, and how the raw HTML
    reader as written differs from the one its test expects. */
module BlockFacts {
  import opened Wrappers
  import opened JsText
  import opened Syntax
  import opened LinePatterns
  import opened BlockParser

  // -----------------------------------------------------------------------
  // Where the loop stops

  /** Every reader but the raw HTML ones accepts only lines without a
      line terminator: each of their patterns walks the whole line with
      `.` or with literal characters. */
  lemma MatchNoTerminator(k: Reader, lines: seq<string>, start: nat)
    requires start < |lines| && Matches(k, lines, start)
    requires k != HtmlReader && k != IntendedHtmlReader
    ensures NoLineTerminator(lines[start])
  {
    var s := lines[start];
    match k
    case HeadingReader =>
      var (h, m) := HeadingSplit(s).value;
      forall i | 0 <= i < |s| ensures !IsLineTerminator(s[i]) {
        if i < h { assert s[i] == '#'; } else if i < h + m { assert s[i] == ' '; }
      }
    case QuoteReader =>
      var (a, b) := QuoteSplit(s).value;
      forall i | 0 <= i < |s| ensures !IsLineTerminator(s[i]) {
        if i < a { assert s[i] == ' '; } else if i < a + 1 + b { assert i == a || s[i] == ' '; }
      }
    case ListReader =>
      var (p, m) := ItemSplit(s).value;
      forall i | 0 <= i < |s| ensures !IsLineTerminator(s[i]) {
        if i < p - 1 { assert p == 1 || IsDigit(s[i]); } else if i < p + m { assert i == p - 1 || s[i] == ' '; }
      }
    case CodeReader =>
      forall i | 0 <= i < |s| ensures !IsLineTerminator(s[i]) {
        if i < 3 { assert s[i] == s[..3][i]; }
      }
    case TableReader =>
      TableLineShape(s);
    case InlineReader =>
      var a := InlineSplit(s).value;
      forall i | 0 <= i < |s| ensures !IsLineTerminator(s[i]) {
        if i < a { assert s[i] == ' '; }
      }
    case RuleReader =>
    case EmptyReader =>
  }

  predicate HasHtmlReader(d: Dialect) {
    HtmlReader in d.readers || IntendedHtmlReader in d.readers
  }

  /** The loop picks reader `k` when it is the only one of the registry
      that accepts the line. */
  lemma OnlyMatch(readers: seq<Reader>, lines: seq<string>, start: nat, k: Reader)
    requires start < |lines|
    requires k in readers && Matches(k, lines, start)
    requires forall i :: 0 <= i < |readers| && readers[i] != k ==> !Matches(readers[i], lines, start)
    ensures FirstReader(readers, lines, start, 0).Some?
    ensures readers[FirstReader(readers, lines, start, 0).value] == k
  {
    var j :| 0 <= j < |readers| && readers[j] == k;
  }

  /** In a dialect with the paragraph and empty-line readers, the loop
      gives up on a line exactly when the line is non-empty, holds a line
      terminator, and is not an opening tag for a raw HTML reader. */
  lemma HaltIff(d: Dialect, lines: seq<string>, p: nat)
    requires p < |lines|
    requires InlineReader in d.readers && EmptyReader in d.readers
    ensures NoReaderMatches(d.readers, lines, p) <==>
      lines[p] != "" && !NoLineTerminator(lines[p]) && !(HasHtmlReader(d) && IsHtmlOpenLine(lines[p]))
  {
    var s := lines[p];
    var i :| 0 <= i < |d.readers| && d.readers[i] == InlineReader;
    var e :| 0 <= e < |d.readers| && d.readers[e] == EmptyReader;
    if s == "" {
      assert Matches(d.readers[e], lines, p);
    } else if NoLineTerminator(s) {
      InlineSplitGreedy(s);
      InlineLineIff(s);
      assert Matches(d.readers[i], lines, p);
    }
    if HasHtmlReader(d) && IsHtmlOpenLine(s) {
      var h :| 0 <= h < |d.readers| && (d.readers[h] == HtmlReader || d.readers[h] == IntendedHtmlReader);
      assert Matches(d.readers[h], lines, p);
    }
    if s != "" && !NoLineTerminator(s) && !(HasHtmlReader(d) && IsHtmlOpenLine(s)) {
      forall i | 0 <= i < |d.readers| ensures !Matches(d.readers[i], lines, p) {
        if d.readers[i] != HtmlReader && d.readers[i] != IntendedHtmlReader && Matches(d.readers[i], lines, p) {
          MatchNoTerminator(d.readers[i], lines, p);
        }
      }
    }
  }

  /** A document none of whose lines holds a line terminator is read to
      its last line. */
  lemma ConsumesWholeDocument(d: Dialect, lines: seq<string>)
    requires InlineReader in d.readers && EmptyReader in d.readers
    requires forall i :: 0 <= i < |lines| ==> NoLineTerminator(lines[i])
    requires ParseFrom(d, lines, 0).Success?
    ensures !ParseFrom(d, lines, 0).value.halted
    ensures Sum(ParseFrom(d, lines, 0).value.counts) == |lines|
  {
    var run := ParseFrom(d, lines, 0).value;
    if run.halted {
      HaltIff(d, lines, Sum(run.counts));
    }
  }

  /** The lines of a text split at "\n" hold no line terminator when the
      text holds no "\r", U+2028 or U+2029. */
  lemma {:induction false} SplitLinesClean(content: string)
    requires forall i :: 0 <= i < |content| ==> content[i] == '\n' || !IsLineTerminator(content[i])
    ensures forall k :: 0 <= k < |Split(content, '\n')| ==> NoLineTerminator(Split(content, '\n')[k])
    decreases |content|
  {
    if |content| > 0 {
      SplitLinesClean(content[1..]);
      var rest := Split(content[1..], '\n');
      if content[0] != '\n' {
        var head := [content[0]] + rest[0];
        assert forall i :: 0 < i < |head| ==> head[i] == rest[0][i - 1];
      }
    }
  }

  // -----------------------------------------------------------------------
  // How the list reader distributes lines over items

  /** The item lines one after the other. */
  function Flatten(items: seq<seq<string>>): seq<string>
    decreases |items|
  {
    if |items| == 0 then [] else Flatten(items[..|items| - 1]) + items[|items| - 1]
  }

  /** The item line a list line becomes: an item start its text after the
      marker, a continuation line itself without its first `indent`
      characters. */
  function ItemBody(line: string, indent: nat): string {
    match ItemCapture(line)
    case Some((_, text)) => text
    case None => Drop(line, indent)
  }

  function Bodies(lines: seq<string>, c: nat, e: nat, indent: nat): (r: seq<string>)
    requires c <= e <= |lines|
    ensures |r| == e - c
    decreases e - c
  {
    if c == e then [] else [ItemBody(lines[c], indent)] + Bodies(lines, c + 1, e, indent)
  }

  /** The indent the list reader settles on: the one fixed already, else
      the leading spaces of the first continuation line in `lines[c..e]`. */
  function FixIndent(lines: seq<string>, c: nat, e: nat, indent: nat): nat
    requires c <= e <= |lines|
    decreases e - c
  {
    if indent > 0 || c == e then indent
    else if ItemCapture(lines[c]).Some? then FixIndent(lines, c + 1, e, 0)
    else match ContentIndent(lines[c])
      case Some(lead) => lead
      case None => 0
  }

  /** Read in order, the items' lines are exactly the scanned lines' bodies,
      all continuation lines cut by the one indent the first of them
      fixes. */
  lemma {:induction false} ScanListLines(lines: seq<string>, cursor: nat, indent: nat, done: seq<seq<string>>, current: seq<string>)
    requires cursor <= |lines|
    requires forall j :: 0 <= j < |done| ==> done[j] != []
    requires current != [] || (cursor < |lines| && ItemSplit(lines[cursor]).Some?)
    ensures var r := ScanList(lines, cursor, indent, done, current);
      Flatten(r.items) == Flatten(done) + current + Bodies(lines, cursor, r.end, FixIndent(lines, cursor, r.end, indent))
    decreases |lines| - cursor, 1
  {
    if cursor < |lines| && ItemCapture(lines[cursor]).Some? {
      ScanListItemLine(lines, cursor, indent, done, current);
    } else if cursor < |lines| && ContentIndent(lines[cursor]).Some? {
      ScanListContinuation(lines, cursor, indent, done, current);
    } else {
      var r := ScanList(lines, cursor, indent, done, current);
      var closed := if current == [] then done else done + [current];
      ClosedLines(done, current);
      assert r == ListScan(closed, cursor);
      assert Bodies(lines, cursor, r.end, FixIndent(lines, cursor, r.end, indent)) == [];
      assert Flatten(done) + current + [] == Flatten(done) + current;
    }
  }

  /** Closing the item being gathered appends its lines. */
  lemma ClosedLines(done: seq<seq<string>>, current: seq<string>)
    ensures Flatten(if current == [] then done else done + [current]) == Flatten(done) + current
  {
    if current != [] {
      assert (done + [current])[..|done|] == done;
    }
  }

  /** The step of `ScanListLines` at a line that starts a new item. */
  lemma {:induction false} ScanListItemLine(lines: seq<string>, cursor: nat, indent: nat, done: seq<seq<string>>, current: seq<string>)
    requires cursor < |lines| && ItemCapture(lines[cursor]).Some?
    requires forall j :: 0 <= j < |done| ==> done[j] != []
    ensures var r := ScanList(lines, cursor, indent, done, current);
      Flatten(r.items) == Flatten(done) + current + Bodies(lines, cursor, r.end, FixIndent(lines, cursor, r.end, indent))
    decreases |lines| - cursor, 0
  {
    var text := ItemCapture(lines[cursor]).value.1;
    var closed := if current == [] then done else done + [current];
    var r := ScanList(lines, cursor + 1, indent, closed, [text]);
    assert ScanList(lines, cursor, indent, done, current) == r;
    ScanListLines(lines, cursor + 1, indent, closed, [text]);
    ClosedLines(done, current);
    var fix := FixIndent(lines, cursor + 1, r.end, indent);
    assert FixIndent(lines, cursor, r.end, indent) == fix;
    var tail := Bodies(lines, cursor + 1, r.end, fix);
    assert Bodies(lines, cursor, r.end, fix) == [text] + tail;
    var head := Flatten(done) + current;
    assert Flatten(r.items) == head + [text] + tail;
    Regroup(head, [], text, tail);
    assert [] + [text] == [text];
    assert head + [] == head;
  }

  /** The step of `ScanListLines` at a continuation line. */
  lemma {:induction false} ScanListContinuation(lines: seq<string>, cursor: nat, indent: nat, done: seq<seq<string>>, current: seq<string>)
    requires cursor < |lines| && ItemCapture(lines[cursor]).None? && ContentIndent(lines[cursor]).Some?
    requires forall j :: 0 <= j < |done| ==> done[j] != []
    requires current != []
    ensures var r := ScanList(lines, cursor, indent, done, current);
      Flatten(r.items) == Flatten(done) + current + Bodies(lines, cursor, r.end, FixIndent(lines, cursor, r.end, indent))
    decreases |lines| - cursor, 0
  {
    var lead := ContentIndent(lines[cursor]).value;
    var ind := if indent > 0 then indent else lead;
    var line := Drop(lines[cursor], ind);
    var r := ScanList(lines, cursor + 1, ind, done, current + [line]);
    assert ScanList(lines, cursor, indent, done, current) == r;
    ScanListLines(lines, cursor + 1, ind, done, current + [line]);
    assert FixIndent(lines, cursor + 1, r.end, ind) == ind;
    assert FixIndent(lines, cursor, r.end, indent) == ind;
    var tail := Bodies(lines, cursor + 1, r.end, ind);
    assert Bodies(lines, cursor, r.end, ind) == [line] + tail;
    Regroup(Flatten(done), current, line, tail);
  }

  /** Moving one element across a join. */
  lemma Regroup<T>(a: seq<T>, b: seq<T>, x: T, c: seq<T>)
    ensures a + (b + [x]) + c == a + b + ([x] + c)
  {
  }

  /** A list read from `start` has one item per item-start line it
      consumed, and its items' lines are those lines' bodies. */
  lemma ListItems(lines: seq<string>, start: nat)
    requires start < |lines| && ItemSplit(lines[start]).Some?
    ensures var r := ScanList(lines, start, 0, [], []);
      && |r.items| == ItemStarts(lines, start, r.end) >= 1
      && Flatten(r.items) == Bodies(lines, start, r.end, FixIndent(lines, start, r.end, 0))
  {
    ScanListLines(lines, start, 0, [], []);
    var r := ScanList(lines, start, 0, [], []);
    assert ItemStarts(lines, start, r.end) >= 1;
  }

  // -----------------------------------------------------------------------
  // Code block

  /** A closed code block is its opening line, its code and the closing
      fence, one per line: the lines it consumed join back to exactly
      that. */
  lemma CodeBlockSource(lines: seq<string>, start: nat, r: Read)
    requires start < |lines| && IsFenceLine(lines[start])
    requires CloseFence(lines, start + 1) < |lines|
    requires r == ReadCode(lines, start)
    ensures Join(lines[start..start + r.count], "\n")
      == "```" + r.block.language + "\n" + (if r.count == 2 then "" else r.block.code + "\n") + "```"
  {
    var close := CloseFence(lines, start + 1);
    assert r.count == close + 1 - start && lines[start] == "```" + r.block.language;
    assert r.block.code == Join(lines[start + 1..close], "\n");
    assert lines[start..start + r.count] == lines[start..close + 1];
    FencedLines(lines, start, close, r.block.language);
  }

  /** The lines of a closed fence joined with newlines. */
  lemma FencedLines(lines: seq<string>, start: nat, close: nat, language: string)
    requires start < close < |lines|
    requires lines[start] == "```" + language && lines[close] == "```"
    ensures Join(lines[start..close + 1], "\n")
      == "```" + language + "\n" + (if close == start + 1 then "" else Join(lines[start + 1..close], "\n") + "\n") + "```"
  {
    assert lines[start..close + 1] == [lines[start]] + lines[start + 1..close] + [lines[close]];
    JoinFramed(lines[start], lines[start + 1..close], lines[close], "\n");
  }

  /** Joining a first line, some lines and a last line. */
  lemma JoinFramed(first: string, body: seq<string>, last: string, sep: string)
    ensures Join([first] + body + [last], sep) == first + sep + (if body == [] then "" else Join(body, sep) + sep) + last
  {
    if body == [] {
      assert [first] + body + [last] == [first] + [last];
      JoinAppend([first], [last], sep);
    } else {
      JoinAppend([first] + body, [last], sep);
      JoinAppend([first], body, sep);
    }
  }

  // -----------------------------------------------------------------------
  // Raw HTML: as written and as intended

  /** Both raw HTML readers consume the same lines, but the one as written
      adds the line after the closing tag, when there is one, to the
      block's text. */
  lemma HtmlExtraLine(lines: seq<string>, start: nat)
    requires start < |lines|
    ensures ReadHtml(lines, start).Success? <==> ReadHtmlIntended(lines, start).Success?
    ensures ReadHtml(lines, start).Success? ==>
      var written, intended := ReadHtml(lines, start).value, ReadHtmlIntended(lines, start).value;
      && written.count == intended.count
      && (start + written.count < |lines| ==>
            written.block.html == intended.block.html + "\n" + lines[start + written.count])
      && (start + written.count == |lines| ==> written.block.html == intended.block.html)
  {
    HtmlTexts(lines, start);
    if ReadHtml(lines, start).Success? {
      var written, intended := ReadHtml(lines, start).value, ReadHtmlIntended(lines, start).value;
      var end := start + written.count;
      ExtraLine(lines, start, written.count);
      if end < |lines| {
        assert written.block.html == intended.block.html + "\n" + lines[end];
      } else {
        assert lines[start..if end < |lines| then end + 1 else end] == lines[start..end];
      }
    }
  }

  /** The lines from `start` on, `count` of them, joined, against the same
      lines and the one after them. */
  lemma ExtraLine(lines: seq<string>, start: nat, count: nat)
    requires start < start + count <= |lines|
    ensures var end := start + count;
      end < |lines| ==> Join(lines[start..end + 1], "\n") == Join(lines[start..end], "\n") + "\n" + lines[end]
  {
    if start + count < |lines| {
      JoinSnoc(lines, start, start + count, "\n");
    }
  }

  /** What the two raw HTML readers' texts are, in terms of the lines
      both consume. */
  lemma HtmlTexts(lines: seq<string>, start: nat)
    requires start < |lines|
    ensures ReadHtml(lines, start).Success? <==> ReadHtmlIntended(lines, start).Success?
    ensures ReadHtml(lines, start).Success? ==>
      var written, intended := ReadHtml(lines, start).value, ReadHtmlIntended(lines, start).value;
      var end := start + written.count;
      && written.count == intended.count && start < end <= |lines|
      && written.block.html == Join(lines[start..if end < |lines| then end + 1 else end], "\n")
      && intended.block.html == Join(lines[start..end], "\n")
  {
    if ReadHtml(lines, start).Success? {
      HtmlCountsAgree(lines, start);
    }
  }

  /** Both raw HTML readers consume the same lines. */
  lemma HtmlCountsAgree(lines: seq<string>, start: nat)
    requires start < |lines|
    requires ReadHtml(lines, start).Success? && ReadHtmlIntended(lines, start).Success?
    ensures ReadHtml(lines, start).value.count == ReadHtmlIntended(lines, start).value.count
  {
  }

  /** The block of the raw HTML test, cut short: a closed `<p>` followed
      by an empty line. The reader as written puts the empty line into the
      block's text; the test expects the two lines alone. */
  lemma HtmlExtraLineExample()
    ensures ReadHtml(["<p>", "</p>", ""], 0) == Success(Read(Html("<p>\n</p>\n"), 2))
    ensures ReadHtmlIntended(["<p>", "</p>", ""], 0) == Success(Read(Html("<p>\n</p>"), 2))
  {
    var lines := ["<p>", "</p>", ""];
    assert RunLength(lines[0], 1, IsWordChar) == 1;
    assert lines[0][1..2] == "p";
    assert HtmlTag(lines[0]) == Some("p");
    assert !IsCloseTag(lines[0], "p");
    assert RunLength(lines[1], 2, IsSpace) == 0;
    assert lines[1][2..] == "p>";
    assert CloseTagLine(lines, 0, "p") == 1;
    assert HtmlEnd(lines, 0, "p") == 2;
    assert Slice(lines, 0, 3) == lines;
    assert lines[0..3] == lines && lines[0..2] == ["<p>", "</p>"];
    assert lines[1..] == ["</p>", ""] && lines[1..][1..] == [""];
    assert Join(lines, "\n") == "<p>\n</p>\n";
    assert ["<p>", "</p>"][1..] == ["</p>"];
    assert Join(["<p>", "</p>"], "\n") == "<p>\n</p>";
    assert ReadHtml(lines, 0) == Success(Read(Html(Join(lines, "\n")), 2));
    assert ReadHtmlIntended(lines, 0) == Success(Read(Html(Join(lines[0..2], "\n")), 2));
  }

  /** Joining one more line. */
  lemma JoinSnoc(lines: seq<string>, a: nat, b: nat, sep: string)
    requires a < b < |lines|
    ensures Join(lines[a..b + 1], sep) == Join(lines[a..b], sep) + sep + lines[b]
  {
    assert lines[a..b + 1] == lines[a..b] + [lines[b]];
    JoinAppend(lines[a..b], [lines[b]], sep);
  }
}
