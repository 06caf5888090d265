/** The block reader loop: `parseBlocks` and its registry of block readers
    (www/iinm.github.io/lib/markdown.js:82-379, lib/markdown.js:46-343,
    src/markdown.ts:1-240, modules/markdown.js:1-19 and 99-274).

    The parser generations differ only in which readers and which inline
    segmenters they register, so the loop is written once over a
    `Dialect`. A thrown `Error` becomes `Failure`; the loop giving up on a
    line that no reader matches (a warning and an early `break` in the
    source) is a successful `Run` with `halted` set. */
module BlockParser {
  import opened Wrappers
  import opened JsText
  import opened Syntax
  import opened LinePatterns
  import InlineParser

  /** The block readers, in the order the newest registry lists them. */
  datatype Reader =
    | HeadingReader
    | RuleReader
    | QuoteReader
    | ListReader
    | CodeReader
    | TableReader
    | HtmlReader          // the raw HTML reader as written
    | IntendedHtmlReader  // the raw HTML reader without the extra line
    | InlineReader
    | EmptyReader

  /** A parser generation: its reader registry and segmenter chain. */
  datatype Dialect = Dialect(readers: seq<Reader>, chain: seq<InlineParser.Segmenter>)

  /** What `read` returns: the block and `readLineCount`. */
  datatype Read = Read(block: Block, count: nat)

  /** The blocks read from some position on, the number of lines each one
      consumed, and whether the loop stopped at a line no reader takes. */
  datatype Run = Run(blocks: seq<Block>, counts: seq<nat>, halted: bool)

  /** Each reader's `match`. */
  predicate Matches(k: Reader, lines: seq<string>, start: nat)
    requires start < |lines|
  {
    var s := lines[start];
    match k
    case HeadingReader => HeadingSplit(s).Some?
    case RuleReader => s == "" && start + 1 < |lines| && IsRuleLine(lines[start + 1])
    case QuoteReader => QuoteMatch(s)
    case ListReader => ItemSplit(s).Some?
    case CodeReader => IsFenceLine(s)
    case TableReader => IsTableLine(s)
    case HtmlReader => IsHtmlOpenLine(s)
    case IntendedHtmlReader => IsHtmlOpenLine(s)
    case InlineReader => InlineSplit(s).Some?
    case EmptyReader => s == ""
  }

  /** Each reader's `match` as the regex it is written with. */
  ghost predicate RegexMatches(k: Reader, lines: seq<string>, start: nat)
    requires start < |lines|
  {
    var s := lines[start];
    match k
    case HeadingReader => IsHeadingLine(s)
    case RuleReader => s == "" && start + 1 < |lines| && IsRuleLine(lines[start + 1])
    case QuoteReader => IsQuoteLine(s)
    case ListReader => IsListLine(s)
    case CodeReader => IsFenceLine(s)
    case TableReader => IsTableLine(s)
    case HtmlReader => IsHtmlOpenLine(s)
    case IntendedHtmlReader => IsHtmlOpenLine(s)
    case InlineReader => IsInlineLine(s)
    case EmptyReader => s == ""
  }

  /** The computed tests are the regexes. */
  lemma MatchesAreRegexes(k: Reader, lines: seq<string>, start: nat)
    requires start < |lines|
    ensures Matches(k, lines, start) <==> RegexMatches(k, lines, start)
  {
    var s := lines[start];
    match k
    case HeadingReader => HeadingSplitGreedy(s);
    case QuoteReader => QuoteMatchIff(s);
    case ListReader => ItemSplitGreedy(s);
    case InlineReader => InlineSplitGreedy(s);
    case _ =>
  }

  predicate NoReaderMatches(readers: seq<Reader>, lines: seq<string>, start: nat)
    requires start < |lines|
  {
    forall i :: 0 <= i < |readers| ==> !Matches(readers[i], lines, start)
  }

  /** The position of the first reader of the registry, from `from` on,
      whose `match` accepts the line. */
  function FirstReader(readers: seq<Reader>, lines: seq<string>, start: nat, from: nat): (r: Option<nat>)
    requires start < |lines| && from <= |readers|
    ensures r.Some? ==> from <= r.value < |readers| && Matches(readers[r.value], lines, start)
    ensures r.Some? ==> forall i :: from <= i < r.value ==> !Matches(readers[i], lines, start)
    ensures r.None? ==> forall i :: from <= i < |readers| ==> !Matches(readers[i], lines, start)
    decreases |readers| - from
  {
    if from == |readers| then None
    else if Matches(readers[from], lines, start) then Some(from)
    else FirstReader(readers, lines, start, from + 1)
  }

  function Sum(xs: seq<nat>): nat
    decreases |xs|
  {
    if |xs| == 0 then 0 else xs[0] + Sum(xs[1..])
  }

  /** `run` accounts for the lines from `start` on: one positive line count
      per block, the counts reach the end of the input unless the loop
      halted, and it halts only at a line no reader of the dialect takes. */
  predicate Covers(d: Dialect, lines: seq<string>, start: nat, run: Run) {
    && |run.blocks| == |run.counts|
    && (forall i :: 0 <= i < |run.counts| ==> run.counts[i] >= 1)
    && start + Sum(run.counts) <= |lines|
    && (run.halted <==> start + Sum(run.counts) < |lines|)
    && (run.halted ==> NoReaderMatches(d.readers, lines, start + Sum(run.counts)))
  }

  /** A block that consumed `read.count` lines, followed by a run covering
      the rest, covers the lines from `start` on. */
  lemma CoversCons(d: Dialect, lines: seq<string>, start: nat, read: Read, rest: Run)
    requires 1 <= read.count && start + read.count <= |lines|
    requires Covers(d, lines, start + read.count, rest)
    ensures Covers(d, lines, start, Run([read.block] + rest.blocks, [read.count] + rest.counts, rest.halted))
  {
    assert ([read.count] + rest.counts)[1..] == rest.counts;
  }

  // -----------------------------------------------------------------------
  // Termination measure

  /** The length of the longest line. Every nested parse (a blockquote's
      or a list item's lines) is of strictly shorter lines. */
  function Width(lines: seq<string>): (w: nat)
    ensures forall i :: 0 <= i < |lines| ==> |lines[i]| <= w
    decreases |lines|
  {
    if |lines| == 0 then 0
    else
      var w := Width(lines[1..]);
      assert forall i :: 1 <= i < |lines| ==> lines[i] == lines[1..][i - 1];
      if |lines[0]| >= w then |lines[0]| else w
  }

  lemma {:induction false} WidthBelow(lines: seq<string>, w: nat)
    requires w > 0
    requires forall i :: 0 <= i < |lines| ==> |lines[i]| < w
    ensures Width(lines) < w
    decreases |lines|
  {
    if |lines| > 0 {
      WidthBelow(lines[1..], w);
    }
  }

  // -----------------------------------------------------------------------
  // Heading

  /** The heading reader: the `#` run is the level, the text after the
      spaces is the heading. It throws when the capture fails. */
  function ReadHeading(lines: seq<string>, start: nat): (r: Result<Read, ParseError>)
    requires start < |lines|
    ensures r.Failure? <==> !Matches(HeadingReader, lines, start)
    ensures r.Failure? ==> r.error == NotAHeading(lines[start])
    ensures r.Success? ==>
      var b := r.value.block;
      && r.value.count == 1 && b.Heading? && b.level + |b.heading| < |lines[start]|
      && HeadingCut(lines[start], b.level, |lines[start]| - b.level - |b.heading|)
      && EndsWith(lines[start], b.heading)
      && HeadingSplit(lines[start]) == Some((b.level, |lines[start]| - b.level - |b.heading|))
  {
    match HeadingSplit(lines[start])
    case None => Failure(NotAHeading(lines[start]))
    case Some((k, m)) => Success(Read(Heading(k, lines[start][k + m..]), 1))
  }

  // -----------------------------------------------------------------------
  // Blockquote

  /** The end of the run of lines from `c` on that match `^ *> *(.*)$`. */
  function QuoteEnd(lines: seq<string>, c: nat): (e: nat)
    requires c <= |lines|
    ensures c <= e <= |lines|
    ensures forall i :: c <= i < e ==> QuoteCapture(lines[i]).Some?
    ensures e < |lines| ==> QuoteCapture(lines[e]).None?
    decreases |lines| - c
  {
    if c == |lines| || QuoteCapture(lines[c]).None? then c else QuoteEnd(lines, c + 1)
  }

  /** The captures of that run: the lines of the quoted document. */
  function QuoteLines(lines: seq<string>, c: nat): (r: seq<string>)
    requires c <= |lines|
    ensures |r| == QuoteEnd(lines, c) - c
    ensures forall j :: 0 <= j < |r| ==> Some(r[j]) == QuoteCapture(lines[c + j])
    ensures c < |lines| && QuoteCapture(lines[c]).Some? ==> Width(r) < Width(lines)
  {
    var e := QuoteEnd(lines, c);
    var r := seq(e - c, j requires 0 <= j < e - c => QuoteCapture(lines[c + j]).value);
    if c < |lines| && QuoteCapture(lines[c]).Some? then QuoteNarrower(lines, c, r); r else r
  }

  /** Each capture is shorter than its line, so the quoted document is
      narrower than the lines it came from. */
  lemma QuoteNarrower(lines: seq<string>, c: nat, r: seq<string>)
    requires c < |lines| && QuoteCapture(lines[c]).Some?
    requires c + |r| <= |lines|
    requires forall j :: 0 <= j < |r| ==> Some(r[j]) == QuoteCapture(lines[c + j])
    ensures Width(r) < Width(lines)
  {
    assert |lines[c]| > 0;
    forall j | 0 <= j < |r| ensures |r[j]| < Width(lines) {
      assert |r[j]| < |lines[c + j]|;
    }
    WidthBelow(r, Width(lines));
  }

  // -----------------------------------------------------------------------
  // List

  /** What the list reader's loop has gathered when it stops: the lines of
      each item, and the line it stopped at. */
  datatype ListScan = ListScan(items: seq<seq<string>>, end: nat)

  /** `substring(indent)`, which yields "" past the end of the string. */
  function Drop(s: string, n: nat): (r: string)
    ensures r == s[if n <= |s| then n else |s|..]
  {
    if n <= |s| then s[n..] else ""
  }

  /** A line the list reader takes: an item start or a continuation. */
  predicate ListLine(s: string) {
    ItemSplit(s).Some? || ContentIndent(s).Some?
  }

  /** Where the list ends: the first line from `c` on that neither starts
      an item nor continues one, or the end of the input. */
  function ListEnd(lines: seq<string>, c: nat): (e: nat)
    requires c <= |lines|
    ensures c <= e <= |lines|
    ensures forall i :: c <= i < e ==> ListLine(lines[i])
    ensures e < |lines| ==> !ListLine(lines[e])
    decreases |lines| - c
  {
    if c == |lines| || !ListLine(lines[c]) then c else ListEnd(lines, c + 1)
  }

  /** The number of item-start lines in `lines[c..e]`. */
  function ItemStarts(lines: seq<string>, c: nat, e: nat): nat
    requires c <= e <= |lines|
    decreases e - c
  {
    if c == e then 0 else (if ItemSplit(lines[c]).Some? then 1 else 0) + ItemStarts(lines, c + 1, e)
  }

  /** The list reader's loop from `cursor` on, with the indent fixed so
      far (0 while no continuation line has been seen), the finished items
      and the lines of the open item. An item-start line closes the open
      item and opens one with its text; a continuation line adds itself
      without the first `indent` characters; any other line ends the list. */
  function ScanList(lines: seq<string>, cursor: nat, indent: nat, done: seq<seq<string>>, current: seq<string>): (r: ListScan)
    requires cursor <= |lines|
    requires forall j :: 0 <= j < |done| ==> done[j] != []
    requires current != [] || (cursor < |lines| && ItemSplit(lines[cursor]).Some?)
    ensures r.end == ListEnd(lines, cursor)
    ensures |r.items| == |done| + (if current == [] then 0 else 1) + ItemStarts(lines, cursor, r.end)
    ensures forall j :: 0 <= j < |done| ==> r.items[j] == done[j]
    ensures forall j :: 0 <= j < |r.items| ==> r.items[j] != []
    decreases |lines| - cursor
  {
    if cursor == |lines| then ListScan(if current == [] then done else done + [current], cursor)
    else match ItemCapture(lines[cursor])
      case Some((_, text)) =>
        ScanList(lines, cursor + 1, indent, if current == [] then done else done + [current], [text])
      case None =>
        match ContentIndent(lines[cursor])
        case Some(lead) =>
          var ind := if indent > 0 then indent else lead;
          ScanList(lines, cursor + 1, ind, done, current + [Drop(lines[cursor], ind)])
        case None => ListScan(if current == [] then done else done + [current], cursor)
  }

  /** The lines of the items of the list starting at `start`: each is
      narrower than the list, since every item text and every continuation
      lost at least its marker or its indent. */
  function ListItemLines(lines: seq<string>, start: nat): (items: seq<seq<string>>)
    requires start < |lines| && ItemSplit(lines[start]).Some?
    ensures items == ScanList(lines, start, 0, [], []).items
    ensures forall j :: 0 <= j < |items| ==> Width(items[j]) < Width(lines)
  {
    var items := ScanList(lines, start, 0, [], []).items;
    ScanListNarrower(lines, start, 0, [], [], Width(lines));
    assert |lines[start]| > 0;
    assert forall j :: 0 <= j < |items| ==> Width(items[j]) < Width(lines) by {
      forall j | 0 <= j < |items| ensures Width(items[j]) < Width(lines) {
        WidthBelow(items[j], Width(lines));
      }
    }
    items
  }

  /** Every line of every item is shorter than `w`. */
  predicate Narrower(items: seq<seq<string>>, w: nat) {
    forall j, k :: 0 <= j < |items| && 0 <= k < |items[j]| ==> |items[j][k]| < w
  }

  /** Every line the list reader gathers is shorter than the line it came
      from. */
  lemma {:induction false} ScanListNarrower(lines: seq<string>, cursor: nat, indent: nat, done: seq<seq<string>>, current: seq<string>, w: nat)
    requires cursor <= |lines|
    requires forall j :: 0 <= j < |done| ==> done[j] != []
    requires current != [] || (cursor < |lines| && ItemSplit(lines[cursor]).Some?)
    requires Narrower(done, w) && Narrower([current], w)
    requires forall i :: cursor <= i < |lines| ==> |lines[i]| <= w
    ensures Narrower(ScanList(lines, cursor, indent, done, current).items, w)
    decreases |lines| - cursor
  {
    if cursor < |lines| {
      match ItemCapture(lines[cursor])
      case Some((_, text)) =>
        ScanListNarrower(lines, cursor + 1, indent, if current == [] then done else done + [current], [text], w);
      case None =>
        match ContentIndent(lines[cursor])
        case Some(lead) =>
          var ind := if indent > 0 then indent else lead;
          var next := current + [Drop(lines[cursor], ind)];
          assert [current][0] == current;
          assert forall k :: 0 <= k < |current| ==> |next[k]| < w;
          assert |next[|current|]| < w;
          assert [next][0] == next;
          ScanListNarrower(lines, cursor + 1, ind, done, next, w);
        case None =>
    }
  }

  // -----------------------------------------------------------------------
  // Code block

  /** The first line from `c` on that is exactly the closing fence, or the
      end of the input. */
  function CloseFence(lines: seq<string>, c: nat): (e: nat)
    requires c <= |lines|
    ensures c <= e <= |lines|
    ensures forall i :: c <= i < e ==> lines[i] != "```"
    ensures e < |lines| ==> lines[e] == "```"
    decreases |lines| - c
  {
    if c == |lines| || lines[c] == "```" then c else CloseFence(lines, c + 1)
  }

  /** The code block reader: the language after the opening fence, and the
      lines up to the closing fence joined with newlines. The closing fence
      is consumed; an unclosed block runs to the end of the input. */
  function ReadCode(lines: seq<string>, start: nat): (r: Read)
    requires start < |lines| && IsFenceLine(lines[start])
    ensures r.block.CodeBlock? && lines[start] == "```" + r.block.language
    ensures 1 <= r.count <= |lines| - start
    ensures start + r.count < |lines| ==> lines[start + r.count - 1] == "```"
    ensures forall i :: start < i < start + r.count - 1 ==> lines[i] != "```"
    ensures r.block.code == Join(lines[start + 1..CloseFence(lines, start + 1)], "\n")
    ensures var close := CloseFence(lines, start + 1);
      start + r.count == if close < |lines| then close + 1 else |lines|
  {
    var close := CloseFence(lines, start + 1);
    var cursor := if close < |lines| then close + 1 else close;
    Read(CodeBlock(FenceLanguage(lines[start]), Join(lines[start + 1..close], "\n")), cursor - start)
  }

  // -----------------------------------------------------------------------
  // Table

  /** `Array.prototype.slice(a, b)` for non-negative bounds: both are
      clamped to the length. */
  function Slice<T>(xs: seq<T>, a: nat, b: nat): (r: seq<T>)
    ensures a <= b <= |xs| ==> r == xs[a..b]
    ensures a <= |xs| <= b ==> r == xs[a..]
  {
    var lo := if a <= |xs| then a else |xs|;
    var hi := if b <= |xs| then b else |xs|;
    if hi <= lo then [] else xs[lo..hi]
  }

  /** `line.split("|").slice(1, 1 + n)` as the table reader uses it: it
      has `n` pieces exactly when the line has at least `n` pipes. */
  function Pick(line: string, n: nat): (r: seq<string>)
    ensures |r| == n <==> Count(line, '|') >= n
    ensures |r| == n ==> r == Split(line, '|')[1..1 + n]
  {
    Slice(Split(line, '|'), 1, 1 + n)
  }

  /** The cells of a table line: each piece trimmed and parsed inline. */
  function Cells(chain: seq<InlineParser.Segmenter>, parts: seq<string>): (r: seq<Cell>)
    requires forall i :: 0 <= i < |parts| ==> NoLineTerminator(parts[i])
    ensures |r| == |parts|
    ensures forall i :: 0 <= i < |r| ==> r[i].segments == InlineParser.ParseInline(chain, Trim(parts[i]))
  {
    seq(|parts|, i requires 0 <= i < |parts| => Cell(InlineParser.ParseInline(chain, Trim(parts[i]))))
  }

  /** The alignment a delimiter cell asks for. */
  function AlignOf(cell: string): (a: Align)
    ensures var t := Trim(cell);
      && (a == Center <==> StartsWith(t, ":-") && EndsWith(t, "-:"))
      && (a == Right <==> !StartsWith(t, ":-") && EndsWith(t, "-:"))
  {
    var t := Trim(cell);
    if StartsWith(t, ":-") && EndsWith(t, "-:") then Center
    else if EndsWith(t, "-:") then Right
    else Left
  }

  function AlignAll(parts: seq<string>): (r: seq<Align>)
    ensures |r| == |parts| && forall i :: 0 <= i < |r| ==> r[i] == AlignOf(parts[i])
    decreases |parts|
  {
    if |parts| == 0 then [] else [AlignOf(parts[0])] + AlignAll(parts[1..])
  }

  /** A table line cut at `|` has at least `n` pieces after the first:
      `n` cells. */
  predicate HasCells(line: string, n: nat) {
    |Pick(line, n)| == n
  }

  /** The end of the table body: the first line from `c` on that is not a
      table line, or the end of the input. */
  function TableEnd(lines: seq<string>, c: nat): (e: nat)
    requires c <= |lines|
    ensures c <= e <= |lines|
    ensures forall i :: c <= i < e ==> IsTableLine(lines[i])
    ensures e < |lines| ==> !IsTableLine(lines[e])
    decreases |lines| - c
  {
    if c == |lines| || !IsTableLine(lines[c]) then c else TableEnd(lines, c + 1)
  }

  /** The first row in `lines[c..e]` with fewer than `n` cells, or `e`
      when every row has enough. */
  function FirstShort(lines: seq<string>, c: nat, e: nat, n: nat): (f: nat)
    requires c <= e <= |lines|
    ensures c <= f <= e
    ensures forall i :: c <= i < f ==> HasCells(lines[i], n)
    ensures f < e ==> !HasCells(lines[f], n)
    decreases e - c
  {
    if c == e || !HasCells(lines[c], n) then c else FirstShort(lines, c + 1, e, n)
  }

  /** Row `j` of `rows` is line `c + j`, a table line with at least `n`
      cells, cut into its first `n` cells. */
  predicate RowsRead(chain: seq<InlineParser.Segmenter>, lines: seq<string>, c: nat, n: nat, rows: seq<seq<Cell>>) {
    forall j :: 0 <= j < |rows| ==>
      && c + j < |lines| && IsTableLine(lines[c + j]) && HasCells(lines[c + j], n)
      && rows[j] == Row(chain, lines[c + j], n)
  }

  /** The table body rows `lines[c..e]`, each cut into its first `n`
      cells. The first row with fewer than `n` cells throws. */
  function ReadRows(chain: seq<InlineParser.Segmenter>, lines: seq<string>, c: nat, e: nat, n: nat): (r: Result<seq<seq<Cell>>, ParseError>)
    requires c <= e <= |lines|
    requires forall i :: c <= i < e ==> IsTableLine(lines[i])
    ensures r.Failure? <==> FirstShort(lines, c, e, n) < e
    ensures r.Failure? ==> r.error == BadTableRow(lines[FirstShort(lines, c, e, n)])
    ensures r.Success? ==> |r.value| == e - c
    ensures r.Success? ==> RowsRead(chain, lines, c, n, r.value)
    ensures r.Success? ==> forall j :: 0 <= j < |r.value| ==> |r.value[j]| == n
  {
    var f := FirstShort(lines, c, e, n);
    if f < e then Failure(BadTableRow(lines[f])) else Success(Rows(chain, lines, c, e, n))
  }

  /** The rows `lines[c..e]` once every one of them has `n` cells. */
  function Rows(chain: seq<InlineParser.Segmenter>, lines: seq<string>, c: nat, e: nat, n: nat): (r: seq<seq<Cell>>)
    requires c <= e <= |lines|
    requires forall i :: c <= i < e ==> IsTableLine(lines[i]) && HasCells(lines[i], n)
    ensures |r| == e - c
    ensures forall j :: 0 <= j < |r| ==> r[j] == Row(chain, lines[c + j], n) && |r[j]| == n
  {
    var rows := seq(e - c, j requires 0 <= j < e - c => Row(chain, lines[c + j], n));
    assert forall j :: 0 <= j < |rows| ==> rows[j] == Row(chain, lines[c + j], n) && |rows[j]| == n by {
      forall j | 0 <= j < |rows| ensures rows[j] == Row(chain, lines[c + j], n) && |rows[j]| == n {
        var row := Row(chain, lines[c + j], n);
        assert rows[j] == row;
      }
    }
    rows
  }

  /** One body row: the first `n` pieces after the leading pipe, each a
      cell. */
  function Row(chain: seq<InlineParser.Segmenter>, line: string, n: nat): (r: seq<Cell>)
    requires IsTableLine(line) && HasCells(line, n)
    ensures |r| == n
  {
    TableLineShape(line);
    SplitNoLineTerminator(line, '|');
    Cells(chain, Pick(line, n))
  }

  /** The `i`-th cell of a row is the piece after the row's `i + 1`-th
      pipe, trimmed and parsed inline. */
  lemma RowCells(chain: seq<InlineParser.Segmenter>, line: string, n: nat)
    requires IsTableLine(line) && HasCells(line, n)
    ensures forall k :: 1 <= k <= n ==> NoLineTerminator(Split(line, '|')[k])
    ensures forall i :: 0 <= i < n ==>
      Row(chain, line, n)[i].segments == InlineParser.ParseInline(chain, Trim(Split(line, '|')[1 + i]))
  {
    TableLineShape(line);
    SplitNoLineTerminator(line, '|');
  }

  /** The table reader. The header cells are the pieces between the outer
      pipes of the first line; the next line gives one alignment per
      header cell; the body is the table lines that follow. It throws when
      there is no alignment line or it has too few cells. */
  function ReadTable(chain: seq<InlineParser.Segmenter>, lines: seq<string>, start: nat): (r: Result<Read, ParseError>)
    requires start < |lines| && IsTableLine(lines[start])
    ensures r.Success? ==>
      var b := r.value.block;
      && b.Table?
      && |b.header| == Count(lines[start], '|') - 1
      && |b.align| == |b.header|
      && start + 1 < |lines| && Count(lines[start + 1], '|') >= |b.header|
      && (forall j :: 0 <= j < |b.rows| ==> |b.rows[j]| == |b.header|)
      && r.value.count == 2 + |b.rows| <= |lines| - start
    ensures r.Success? ==>
      var b := r.value.block;
      && Count(lines[start], '|') >= 2
      && b.header == Row(chain, lines[start], Count(lines[start], '|') - 1)
      && b.align == AlignAll(Pick(lines[start + 1], |b.header|))
      && start + r.value.count == TableEnd(lines, start + 2)
      && RowsRead(chain, lines, start + 2, |b.header|, b.rows)
    ensures r.Failure? <==>
      || start + 1 == |lines|
      || Count(lines[start + 1], '|') < Count(lines[start], '|') - 1
      || FirstShort(lines, start + 2, TableEnd(lines, start + 2), Count(lines[start], '|') - 1) < TableEnd(lines, start + 2)
    ensures r.Failure? && r.error.BadTableHeader? ==>
      r.error.line == lines[start]
      && (start + 1 == |lines| || Count(lines[start + 1], '|') < Count(lines[start], '|') - 1)
  {
    TableLineShape(lines[start]);
    var n := Count(lines[start], '|') - 1;
    var header := Row(chain, lines[start], n);
    if start + 1 == |lines| then Failure(BadTableHeader(lines[start]))
    else
      var alignParts := Pick(lines[start + 1], n);
      if |alignParts| != n then Failure(BadTableHeader(lines[start]))
      else
        var end := TableEnd(lines, start + 2);
        var rows :- ReadRows(chain, lines, start + 2, end, n);
        Success(Read(Table(header, AlignAll(alignParts), rows), end - start))
  }

  // -----------------------------------------------------------------------
  // Raw HTML

  /** The first line from `c` on that closes `tag`, or the end of the
      input. */
  function CloseTagLine(lines: seq<string>, c: nat, tag: string): (e: nat)
    requires c <= |lines|
    ensures c <= e <= |lines|
    ensures forall i :: c <= i < e ==> !IsCloseTag(lines[i], tag)
    ensures e < |lines| ==> IsCloseTag(lines[e], tag)
    decreases |lines| - c
  {
    if c == |lines| || IsCloseTag(lines[c], tag) then c else CloseTagLine(lines, c + 1, tag)
  }

  /** The line after the raw HTML block: one past the closing line, or the
      end of the input when the tag is never closed. */
  function HtmlEnd(lines: seq<string>, start: nat, tag: string): (cursor: nat)
    requires start < |lines|
    ensures start < cursor <= |lines|
  {
    var close := CloseTagLine(lines, start, tag);
    if close < |lines| then close + 1 else |lines|
  }

  /** The raw HTML reader as written: it consumes the lines through the
      closing tag, but its text is `lines.slice(start, cursor + 1)`, which
      also takes the line after the block. */
  function ReadHtml(lines: seq<string>, start: nat): (r: Result<Read, ParseError>)
    requires start < |lines|
    ensures r.Failure? <==> !Matches(HtmlReader, lines, start)
    ensures r.Success? ==>
      var cursor := start + r.value.count;
      && start < cursor <= |lines|
      && r.value.block == Html(Join(lines[start..if cursor < |lines| then cursor + 1 else cursor], "\n"))
    ensures r.Success? ==>
      var close := CloseTagLine(lines, start, HtmlTag(lines[start]).value);
      start + r.value.count == if close < |lines| then close + 1 else |lines|
  {
    match HtmlTag(lines[start])
    case None => Failure(NotHtml(lines[start]))
    case Some(tag) =>
      var cursor := HtmlEnd(lines, start, tag);
      Success(Read(Html(Join(Slice(lines, start, cursor + 1), "\n")), cursor - start))
  }

  /** The raw HTML reader as its test expects it: the text is exactly the
      lines it consumes. */
  function ReadHtmlIntended(lines: seq<string>, start: nat): (r: Result<Read, ParseError>)
    requires start < |lines|
    ensures r.Failure? <==> !Matches(IntendedHtmlReader, lines, start)
    ensures r.Success? ==>
      && 1 <= r.value.count <= |lines| - start
      && r.value.block == Html(Join(lines[start..start + r.value.count], "\n"))
    ensures r.Success? ==>
      var close := CloseTagLine(lines, start, HtmlTag(lines[start]).value);
      start + r.value.count == if close < |lines| then close + 1 else |lines|
  {
    match HtmlTag(lines[start])
    case None => Failure(NotHtml(lines[start]))
    case Some(tag) =>
      var cursor := HtmlEnd(lines, start, tag);
      Success(Read(Html(Join(lines[start..cursor], "\n")), cursor - start))
  }

  // -----------------------------------------------------------------------
  // Paragraph line

  /** The inline reader: the line without its leading spaces, parsed into
      segments. It throws when the capture fails. */
  function ReadInline(chain: seq<InlineParser.Segmenter>, lines: seq<string>, start: nat): (r: Result<Read, ParseError>)
    requires start < |lines|
    ensures r.Failure? <==> !Matches(InlineReader, lines, start)
    ensures r.Success? ==> r.value.count == 1 && r.value.block.Inline? && r.value.block.segments != []
    ensures r.Success? ==>
      r.value.block.segments == InlineParser.ParseInline(chain, InlineCapture(lines[start]).value)
  {
    match InlineCapture(lines[start])
    case None => Failure(NotInline(lines[start]))
    case Some(t) => Success(Read(Inline(InlineParser.ParseInline(chain, t)), 1))
  }

  // -----------------------------------------------------------------------
  // The loop

  /** `parseBlocks` from line `start` on: the first reader whose `match`
      accepts the line reads a block, and the loop continues after the
      lines it consumed; when no reader matches, the loop stops. */
  function ParseFrom(d: Dialect, lines: seq<string>, start: nat): (r: Result<Run, ParseError>)
    requires start <= |lines|
    ensures r.Success? ==> Covers(d, lines, start, r.value)
    ensures r.Success? ==> FirstReaderRead(d, lines, start, r.value.blocks, r.value.counts)
    ensures r.Failure? ==> TableReader in d.readers
    decreases Width(lines), |lines| - start, 2, 0
  {
    if start == |lines| then Success(Run([], [], false))
    else match FirstReader(d.readers, lines, start, 0)
      case None => Success(Run([], [], true))
      case Some(i) =>
        var read :- ReadAt(d, d.readers[i], lines, start);
        var rest :- ParseFrom(d, lines, start + read.count);
        CoversCons(d, lines, start, read, rest);
        assert ([read.block] + rest.blocks)[1..] == rest.blocks;
        assert ([read.count] + rest.counts)[1..] == rest.counts;
        Success(Run([read.block] + rest.blocks, [read.count] + rest.counts, rest.halted))
  }

  /** The first reader of the registry that accepts line `c` reads
      `read` there. */
  predicate FirstReads(d: Dialect, lines: seq<string>, c: nat, read: Read)
    decreases Width(lines), |lines| - c, 1, 1
  {
    && c < |lines|
    && FirstReader(d.readers, lines, c, 0).Some?
    && ReadAt(d, d.readers[FirstReader(d.readers, lines, c, 0).value], lines, c) == Success(read)
  }

  /** The blocks of a run, with their line counts, starting at line
      `start`: the first is what the first reader of the registry that
      accepts line `start` reads there, and the rest are read the same way
      from the line after it. */
  predicate FirstReaderRead(d: Dialect, lines: seq<string>, start: nat, blocks: seq<Block>, counts: seq<nat>)
    requires start <= |lines|
    decreases Width(lines), |lines| - start, 1, 2
  {
    && |blocks| == |counts|
    && (|blocks| > 0 ==>
          && FirstReads(d, lines, start, Read(blocks[0], counts[0]))
          && FirstReaderRead(d, lines, start + counts[0], blocks[1..], counts[1..]))
  }

  /** One reader's `read`, called once its `match` accepted the line. */
  function ReadAt(d: Dialect, k: Reader, lines: seq<string>, start: nat): (r: Result<Read, ParseError>)
    requires start < |lines| && Matches(k, lines, start)
    ensures r.Success? ==> 1 <= r.value.count <= |lines| - start
    ensures r.Failure? ==> k == TableReader || TableReader in d.readers
    decreases Width(lines), |lines| - start, 1, 0
  {
    match k
    case HeadingReader => ReadHeading(lines, start)
    case RuleReader => Success(Read(HorizontalRule, 2))
    case QuoteReader => ReadQuote(d, lines, start)
    case ListReader => ReadList(d, lines, start)
    case CodeReader => Success(ReadCode(lines, start))
    case TableReader => ReadTable(d.chain, lines, start)
    case HtmlReader => ReadHtml(lines, start)
    case IntendedHtmlReader => ReadHtmlIntended(lines, start)
    case InlineReader => ReadInline(d.chain, lines, start)
    case EmptyReader => Success(Read(EmptyLine, 1))
  }

  /** The blockquote reader: the captures of the run of quote lines are
      parsed as a document of their own. */
  function ReadQuote(d: Dialect, lines: seq<string>, start: nat): (r: Result<Read, ParseError>)
    requires start < |lines| && Matches(QuoteReader, lines, start)
    ensures r.Success? ==> r.value.block.Blockquote? && r.value.count == QuoteEnd(lines, start) - start >= 1
    ensures r.Success? <==> ParseFrom(d, QuoteLines(lines, start), 0).Success?
    ensures r.Success? ==> r.value.block.contents == ParseFrom(d, QuoteLines(lines, start), 0).value.blocks
    ensures r.Failure? ==> TableReader in d.readers
    decreases Width(lines), |lines| - start, 0, 0
  {
    var body := QuoteLines(lines, start);
    var inner :- ParseFrom(d, body, 0);
    Success(Read(Blockquote(inner.blocks), |body|))
  }

  /** The list reader: the items' lines are each parsed as a document of
      their own; the first marker decides between an unordered and an
      ordered list. */
  function ReadList(d: Dialect, lines: seq<string>, start: nat): (r: Result<Read, ParseError>)
    requires start < |lines| && Matches(ListReader, lines, start)
    ensures r.Success? ==>
      var scan := ScanList(lines, start, 0, [], []);
      && r.value.count == scan.end - start >= 1
      && (r.value.block.UnorderedList? || r.value.block.OrderedList?)
      && (r.value.block.UnorderedList? <==> ItemCapture(lines[start]).Some? && IsBulletMarker(ItemCapture(lines[start]).value.0))
      && |r.value.block.contents| == |scan.items|
    ensures var items := ListItemLines(lines, start);
      r.Success? <==> forall j :: 0 <= j < |items| ==> ParseFrom(d, items[j], 0).Success?
    ensures var items := ListItemLines(lines, start);
      r.Success? ==> forall j :: 0 <= j < |items| ==>
        r.value.block.contents[j] == ListItem(ParseFrom(d, items[j], 0).value.blocks)
    ensures r.Failure? ==> TableReader in d.readers
    decreases Width(lines), |lines| - start, 0, 0
  {
    var scan := ScanList(lines, start, 0, [], []);
    var items :- ParseItems(d, ListItemLines(lines, start), Width(lines));
    var marker := ItemCapture(lines[start]).value.0;
    Success(Read(if IsBulletMarker(marker) then UnorderedList(items) else OrderedList(items), scan.end - start))
  }

  /** Each item's lines parsed as a document of their own, wrapped in a
      list item. */
  function ParseItems(d: Dialect, items: seq<seq<string>>, bound: nat): (r: Result<seq<Block>, ParseError>)
    requires forall j :: 0 <= j < |items| ==> Width(items[j]) < bound
    ensures r.Success? ==> |r.value| == |items| && forall j :: 0 <= j < |r.value| ==> r.value[j].ListItem?
    ensures r.Success? <==> forall j :: 0 <= j < |items| ==> ParseFrom(d, items[j], 0).Success?
    ensures r.Success? ==> forall j :: 0 <= j < |items| ==> r.value[j] == ListItem(ParseFrom(d, items[j], 0).value.blocks)
    ensures r.Failure? ==> TableReader in d.readers
    decreases bound, 0, 0, |items|
  {
    if |items| == 0 then Success([])
    else
      var first :- ParseFrom(d, items[0], 0);
      var rest :- ParseItems(d, items[1..], bound);
      Success([ListItem(first.blocks)] + rest)
  }

  /** `parseBlocks`. */
  function ParseBlocks(d: Dialect, lines: seq<string>): (r: Result<seq<Block>, ParseError>)
    ensures r.Failure? ==> TableReader in d.readers
  {
    var run :- ParseFrom(d, lines, 0);
    Success(run.blocks)
  }
}
