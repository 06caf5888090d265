/** The four parser generations and their entry point `parseMarkdown`
    (www/iinm.github.io/lib/markdown.js:46-49, lib/markdown.js:11-14): the
    text is cut at "\n", the lines are read into blocks, and neighbouring
    paragraph lines are merged.

    The generations share one reader loop and differ in their registries:
    - the newest (www/iinm.github.io/lib/markdown.js) has all nine readers
      and the segmenters image, link, bold, `*`-italic, `_`-italic, code;
    - lib/markdown.js has the same readers and drops the `_`-italic
      segmenter;
    - src/markdown.ts has no table and no raw HTML reader;
    - modules/markdown.js has the readers of src/markdown.ts, tags links
      `url`, and has no code segmenter. */
module Dialects {
  import opened Wrappers
  import opened JsText
  import opened Syntax
  import opened LinePatterns
  import InlineParser
  import opened BlockParser
  import BlockFacts
  import InlineMerge
  import Summary

  const AllReaders: seq<Reader> :=
    [HeadingReader, RuleReader, QuoteReader, ListReader, CodeReader, TableReader, HtmlReader, InlineReader, EmptyReader]

  const BasicReaders: seq<Reader> :=
    [HeadingReader, RuleReader, QuoteReader, ListReader, CodeReader, InlineReader, EmptyReader]

  const NewestChain: seq<InlineParser.Segmenter> :=
    [InlineParser.ImageSegmenter, InlineParser.LinkSegmenter, InlineParser.BoldSegmenter, InlineParser.StarItalicSegmenter, InlineParser.UnderscoreItalicSegmenter, InlineParser.CodeSegmenter]

  const LibChain: seq<InlineParser.Segmenter> :=
    [InlineParser.ImageSegmenter, InlineParser.LinkSegmenter, InlineParser.BoldSegmenter, InlineParser.StarItalicSegmenter, InlineParser.CodeSegmenter]

  const ModulesChain: seq<InlineParser.Segmenter> :=
    [InlineParser.ImageSegmenter, InlineParser.UrlSegmenter, InlineParser.BoldSegmenter, InlineParser.StarItalicSegmenter]

  const Newest := Dialect(AllReaders, NewestChain)
  const Lib := Dialect(AllReaders, LibChain)
  const Src := Dialect(BasicReaders, LibChain)
  const Modules := Dialect(BasicReaders, ModulesChain)

  /** The newest generation with the raw HTML reader its test expects. */
  const NewestIntended := Dialect(
    [HeadingReader, RuleReader, QuoteReader, ListReader, CodeReader, TableReader, IntendedHtmlReader, InlineReader, EmptyReader],
    NewestChain)

  /** `parseMarkdown` (and `parse` in lib/markdown.js). */
  function ParseMarkdown(d: Dialect, content: string): (r: Result<seq<Block>, ParseError>)
    ensures r.Success? ==> InlineMerge.Separated(r.value)
    ensures r.Failure? ==> TableReader in d.readers
  {
    var blocks :- ParseBlocks(d, Split(content, '\n'));
    Success(InlineMerge.Merge(blocks))
  }

  /** The generations without a table reader never throw. */
  lemma TablelessNeverFails(content: string)
    ensures ParseMarkdown(Src, content).Success?
    ensures ParseMarkdown(Modules, content).Success?
  {
    assert forall i :: 0 <= i < |BasicReaders| ==> BasicReaders[i] != TableReader;
    assert TableReader !in Src.readers && TableReader !in Modules.readers;
  }

  /** A text without "\r", U+2028 or U+2029 is read to its last line by
      every generation: the loop never gives up early. */
  lemma ReadsWholeText(d: Dialect, content: string)
    requires d in {Newest, Lib, Src, Modules, NewestIntended}
    requires forall i :: 0 <= i < |content| ==> content[i] == '\n' || !IsLineTerminator(content[i])
    requires ParseFrom(d, Split(content, '\n'), 0).Success?
    ensures !ParseFrom(d, Split(content, '\n'), 0).value.halted
    ensures Sum(ParseFrom(d, Split(content, '\n'), 0).value.counts) == |Split(content, '\n')|
  {
    BlockFacts.SplitLinesClean(content);
    assert InlineReader in d.readers && EmptyReader in d.readers;
    BlockFacts.ConsumesWholeDocument(d, Split(content, '\n'));
  }

  /** The result is already merged: merging it again changes nothing. */
  lemma ParseMarkdownMerged(d: Dialect, content: string)
    requires ParseMarkdown(d, content).Success?
    ensures InlineMerge.Merge(ParseMarkdown(d, content).value) == ParseMarkdown(d, content).value
  {
    InlineMerge.MergeSeparated(ParseMarkdown(d, content).value);
  }

  /** Title and description come out the same whether they are taken from
      the merged blocks or from the blocks as read. */
  lemma SummariesIgnoreMerge(d: Dialect, content: string)
    requires ParseBlocks(d, Split(content, '\n')).Success?
    ensures var blocks := ParseBlocks(d, Split(content, '\n')).value;
      && Summary.FirstHeading(ParseMarkdown(d, content).value) == Summary.FirstHeading(blocks)
      && Summary.FirstParagraph(ParseMarkdown(d, content).value) == Summary.FirstParagraph(blocks)
  {
    var blocks := ParseBlocks(d, Split(content, '\n')).value;
    Summary.FirstHeadingMerged(blocks);
    Summary.FirstParagraphMerged(blocks);
  }

  /** The empty text is one empty line: every registry with the
      empty-line reader parses it to a single empty-line block, not to no
      block at all. */
  lemma EmptyDocument(d: Dialect)
    requires EmptyReader in d.readers
    ensures ParseMarkdown(d, "") == Success([EmptyLine])
  {
    SplitPlain("", '\n');
    assert Split("", '\n') == [""];
    EmptyLineRun(d);
    InlineMerge.MergeSeparated([EmptyLine]);
  }

  /** The one empty line of the empty text is read by the empty-line
      reader, whatever readers come before it. */
  lemma EmptyLineRun(d: Dialect)
    requires EmptyReader in d.readers
    ensures ParseFrom(d, [""], 0) == Success(Run([EmptyLine], [1], false))
  {
    var lines := [""];
    var f := EmptyLineFirst(d);
    assert ReadAt(d, d.readers[f], lines, 0) == Success(Read(EmptyLine, 1));
    assert ParseFrom(d, lines, 1) == Success(Run([], [], false));
    assert [EmptyLine] + [] == [EmptyLine] && [1] + [] == [1];
  }

  /** No reader but the empty-line reader matches an empty line alone. */
  lemma EmptyLineFirst(d: Dialect) returns (f: nat)
    requires EmptyReader in d.readers
    ensures FirstReader(d.readers, [""], 0, 0) == Some(f)
    ensures f < |d.readers| && d.readers[f] == EmptyReader
  {
    var lines := [""];
    assert InlineSplit("").None? && HeadingSplit("").None? && ItemSplit("").None? && QuoteSplit("").None?;
    forall i | 0 <= i < |d.readers| && d.readers[i] != EmptyReader ensures !Matches(d.readers[i], lines, 0) {}
    BlockFacts.OnlyMatch(d.readers, lines, 0, EmptyReader);
    f := FirstReader(d.readers, lines, 0, 0).value;
  }

  /** An empty line followed by a line of three or more `-` is one
      horizontal rule that takes both lines: the empty line gives no block
      of its own. */
  lemma RuleTakesBlank(d: Dialect, lines: seq<string>, start: nat)
    requires |d.readers| >= 2 && d.readers[0] == HeadingReader && d.readers[1] == RuleReader
    requires start + 1 < |lines| && lines[start] == "" && IsRuleLine(lines[start + 1])
    ensures var r := ParseFrom(d, lines, start);
      r.Success? ==> |r.value.blocks| > 0 && r.value.blocks[0] == HorizontalRule && r.value.counts[0] == 2
  {
    assert HeadingSplit("").None?;
    assert FirstReader(d.readers, lines, start, 1) == Some(1);
    assert FirstReader(d.readers, lines, start, 0) == Some(1);
  }

  /** A line of three or more `-` with no empty line before it is a
      paragraph line. */
  lemma DashesAloneAreText(d: Dialect, lines: seq<string>, start: nat)
    requires InlineReader in d.readers
    requires start < |lines| && IsRuleLine(lines[start])
    ensures var r := ParseFrom(d, lines, start);
      r.Success? ==> |r.value.blocks| > 0 && r.value.blocks[0].Inline?
  {
    var s := lines[start];
    assert s[0] == '-' && s[1] == '-';
    assert HeadingSplit(s).None? && ItemSplit(s).None? && QuoteSplit(s).None?;
    InlineLineIff(s);
    InlineSplitGreedy(s);
    forall i | 0 <= i < |d.readers| && d.readers[i] != InlineReader ensures !Matches(d.readers[i], lines, start) {}
    BlockFacts.OnlyMatch(d.readers, lines, start, InlineReader);
  }

  /** In a registry without table and raw HTML readers (src/markdown.ts,
      modules/markdown.js), a line that starts with `|` or `<` is a
      paragraph line. */
  lemma TablelessParagraph(d: Dialect, lines: seq<string>, start: nat)
    requires InlineReader in d.readers
    requires TableReader !in d.readers && HtmlReader !in d.readers && IntendedHtmlReader !in d.readers
    requires start < |lines| && lines[start] != "" && NoLineTerminator(lines[start])
    requires lines[start][0] == '|' || lines[start][0] == '<'
    ensures var r := ParseFrom(d, lines, start);
      r.Success? && |r.value.blocks| > 0 && r.value.blocks[0].Inline?
  {
    var s := lines[start];
    assert HeadingSplit(s).None? && ItemSplit(s).None? && QuoteSplit(s).None?;
    InlineLineIff(s);
    InlineSplitGreedy(s);
    forall i | 0 <= i < |d.readers| && d.readers[i] != InlineReader ensures !Matches(d.readers[i], lines, start) {
      assert d.readers[i] in d.readers;
    }
    BlockFacts.OnlyMatch(d.readers, lines, start, InlineReader);
  }

  /** When the first line holds a line terminator ("\r" of a CRLF text,
      say), is not empty and opens no raw HTML block, no reader takes it:
      the loop gives up at once and the document has no block. */
  lemma StopsAtFirstLine(d: Dialect, content: string)
    requires d in {Newest, Lib, Src, Modules, NewestIntended}
    requires var first := Split(content, '\n')[0];
      first != "" && !NoLineTerminator(first) && !IsHtmlOpenLine(first)
    ensures ParseMarkdown(d, content) == Success([])
  {
    var lines := Split(content, '\n');
    assert InlineReader in d.readers && EmptyReader in d.readers;
    BlockFacts.HaltIff(d, lines, 0);
    assert FirstReader(d.readers, lines, 0, 0).None?;
    assert ParseFrom(d, lines, 0) == Success(Run([], [], true));
  }

  /** A CRLF text whose first line does not open with "<": the line keeps
      its "\r" after the split at "\n", and nothing of the text is read. */
  lemma CrlfText(d: Dialect, line: string, rest: string)
    requires d in {Newest, Lib, Src, Modules, NewestIntended}
    requires forall i :: 0 <= i < |line| ==> line[i] != '\n'
    requires line == "" || line[0] != '<'
    ensures ParseMarkdown(d, line + "\r\n" + rest) == Success([])
  {
    var first := line + "\r";
    assert line + "\r\n" + rest == first + ['\n'] + rest;
    SplitFirst(first, rest, '\n');
    assert IsLineTerminator(first[|line|]);
    StopsAtFirstLine(d, line + "\r\n" + rest);
  }

  // -----------------------------------------------------------------------
  // Where the generations part

  /** Text in which no segmenter's markup can start or end: non-empty,
      on one line, and without `_`, `*`, `[`, `!` or a backquote. */
  predicate Plain(t: string) {
    && t != ""
    && NoLineTerminator(t)
    && forall i :: 0 <= i < |t| ==> t[i] !in "_*[!`"
  }

  /** `_t_` is italic `t` for the newest generation and stays text in
      lib/markdown.js, which has no `_`-italic segmenter. */
  lemma UnderscoreItalic(t: string)
    requires Plain(t)
    ensures InlineParser.ParseInline(NewestChain, "_" + t + "_") == [Italic(t)]
    ensures InlineParser.ParseInline(LibChain, "_" + t + "_") == [Text("_" + t + "_")]
  {
    NewestReadsUnderscore(t);
    LibReadsUnderscore(t);
  }

  lemma NewestReadsUnderscore(t: string)
    requires Plain(t)
    ensures NoLineTerminator("_" + t + "_")
    ensures InlineParser.ParseInline(NewestChain, "_" + t + "_") == [Italic(t)]
  {
    var s := "_" + t + "_";
    OnlyUnderscoreMatches(t);
    assert NewestChain[4] == InlineParser.UnderscoreItalicSegmenter;
    InlineParser.FirstMatchIs(NewestChain, s, 4);
    assert InlineParser.ParseInline(NewestChain, "") == [];
  }

  lemma LibReadsUnderscore(t: string)
    requires Plain(t)
    ensures InlineParser.ParseInline(LibChain, "_" + t + "_") == [Text("_" + t + "_")]
  {
    var s := "_" + t + "_";
    OnlyUnderscoreMatches(t);
    assert forall j :: 0 <= j < |LibChain| ==> LibChain[j] != InlineParser.UnderscoreItalicSegmenter;
    InlineParser.Unmatched(LibChain, s);
  }

  /** Serialising the newest generation's segments of `_t_` gives `*t*`:
      both italic spellings become one `Italic` segment, which is written
      with `*`. This is why the round trip of the inline parser excludes
      the `_`-italic segmenter. */
  lemma UnderscoreNotRestored(t: string)
    requires Plain(t)
    ensures InlineParser.Serialize(InlineParser.ParseInline(NewestChain, "_" + t + "_")) == "*" + t + "*"
  {
    NewestReadsUnderscore(t);
    InlineParser.SerializeOne(Italic(t));
  }

  /** In `_t_` only the `_`-italic segmenter finds markup, and it takes
      the whole text. */
  lemma OnlyUnderscoreMatches(t: string)
    requires Plain(t)
    ensures NoLineTerminator("_" + t + "_")
    ensures forall k :: k != InlineParser.UnderscoreItalicSegmenter ==> InlineParser.Segment(k, "_" + t + "_").None?
    ensures InlineParser.Segment(InlineParser.UnderscoreItalicSegmenter, "_" + t + "_")
      == Some(InlineParser.Split("", Italic(t), ""))
  {
    var s := "_" + t + "_";
    assert forall i :: 1 <= i <= |t| ==> s[i] == t[i - 1];
    forall k | k != InlineParser.UnderscoreItalicSegmenter
      ensures InlineParser.Segment(k, s).None?
    {
      NoOtherMarkup(t, k);
      InlineParser.SegmentNone(k, s);
    }
    UnderscoreLead(t);
    InlineParser.LastHitIs(InlineParser.UnderscoreItalicSegmenter, s, 0);
  }

  /** The `_`-italic markup occurs in `_t_` at its start only. */
  lemma UnderscoreLead(t: string)
    requires Plain(t)
    ensures InlineParser.Lead(InlineParser.UnderscoreItalicSegmenter, "_" + t + "_")
      == Some(InlineParser.Hit(Italic(t), |t| + 2))
    ensures forall j :: 0 < j <= |t| + 2 ==>
      InlineParser.Lead(InlineParser.UnderscoreItalicSegmenter, ("_" + t + "_")[j..]).None?
  {
    var s := "_" + t + "_";
    var u := InlineParser.UnderscoreItalicSegmenter;
    assert forall i :: 1 <= i <= |t| ==> s[i] == t[i - 1];
    var f := FindChar(s, 1, '_');
    assert forall i :: 1 <= i <= |t| ==> s[i] != '_' by {
      assert "_*[!`"[0] == '_';
    }
    assert s[|t| + 1] == '_';
    assert f == |t| + 1;
    assert s[1..f] == t && s[f..f + 1] == "_";
    forall j | 0 < j <= |s| ensures InlineParser.Lead(u, s[j..]).None? {
      if j <= |t| {
        assert s[j..][0] == t[j - 1];
      } else if j == |t| + 1 {
        assert s[j..] == "_";
      } else {
        assert s[j..] == "";
      }
    }
  }

  /** No segmenter but the `_`-italic one finds markup in `_t_`: every
      other markup starts with `!`, `[`, `*` or a backquote. */
  lemma NoOtherMarkup(t: string, k: InlineParser.Segmenter)
    requires Plain(t)
    requires k != InlineParser.UnderscoreItalicSegmenter
    ensures forall j :: 0 <= j <= |t| + 2 ==> InlineParser.Lead(k, ("_" + t + "_")[j..]).None?
  {
    var s := "_" + t + "_";
    forall j | 0 <= j <= |s| ensures InlineParser.Lead(k, s[j..]).None? {
      if 0 < j <= |t| {
        assert s[j..][0] == t[j - 1];
      } else if j < |s| {
        assert s[j..][0] == '_';
      } else {
        assert s[j..] == "";
      }
    }
  }
}
