/** The page summaries taken from a parsed document: the title
    (`firstHeadingAsString`, www/iinm.github.io/lib/markdown.js:500-504)
    and the description (`firstParagraphAsString`, lines 510-528). */
module Summary {
  import opened Wrappers
  import opened JsText
  import opened Syntax
  import InlineMerge

  /** Searching past a prefix where nothing matches finds what the search
      of the rest finds, shifted by the prefix. */
  lemma FindAfter<T>(front: seq<T>, xs: seq<T>, p: T -> bool)
    requires forall j :: 0 <= j < |front| ==> !p(front[j])
    ensures FindIndex(front + xs, p, 0)
      == match FindIndex(xs, p, 0) case None => None case Some(k) => Some(|front| + k)
  {
    var whole := front + xs;
    var f := FindIndex(xs, p, 0);
    var r: Option<nat> := match f case None => None case Some(k) => Some(|front| + k);
    forall j | 0 <= j < (if r.Some? then r.value else |whole|)
      ensures !p(whole[j])
    {
      if j >= |front| {
        assert whole[j] == xs[j - |front|];
      }
    }
    if r.Some? {
      assert whole[r.value] == xs[f.value];
    }
    FindIndexIs(whole, p, r);
  }

  predicate IsHeading(b: Block) { b.Heading? }
  predicate IsInline(b: Block) { b.Inline? }

  // -----------------------------------------------------------------------
  // Title

  /** `firstHeadingAsString`: the text of the first heading, at any level,
      or `None` (`undefined`) when the document has none. */
  function FirstHeading(blocks: seq<Block>): (r: Option<string>)
    ensures r.None? <==> forall i :: 0 <= i < |blocks| ==> !blocks[i].Heading?
    ensures r.Some? ==>
      exists i :: (0 <= i < |blocks| && blocks[i].Heading? && r.value == blocks[i].heading
        && forall j :: 0 <= j < i ==> !blocks[j].Heading?)
  {
    match FindIndex(blocks, IsHeading, 0)
    case None => None
    case Some(i) => Some(blocks[i].heading)
  }

  /** Merging paragraphs does not change the title. */
  lemma {:induction false} FirstHeadingMerged(blocks: seq<Block>)
    ensures FirstHeading(InlineMerge.Merge(blocks)) == FirstHeading(blocks)
  {
    InlineMerge.MergeIsMergeRuns(blocks);
    HeadingOfRuns(blocks);
  }

  lemma {:induction false} HeadingOfRuns(blocks: seq<Block>)
    ensures FirstHeading(InlineMerge.MergeRuns(blocks)) == FirstHeading(blocks)
    decreases |blocks|
  {
    if |blocks| > 0 {
      var m := InlineMerge.MergeRuns(blocks);
      if !blocks[0].Inline? {
        var rest := blocks[1..];
        assert m == [blocks[0]] + InlineMerge.MergeRuns(rest);
        assert blocks == [blocks[0]] + rest;
        HeadingOfRuns(rest);
        if !blocks[0].Heading? {
          HeadingAfter([blocks[0]], InlineMerge.MergeRuns(rest));
          HeadingAfter([blocks[0]], rest);
        }
      } else {
        var e := InlineMerge.RunEnd(blocks, 0);
        var rest := blocks[e..];
        var joined := Inline(InlineMerge.JoinRun(blocks[..e]));
        assert m == [joined] + InlineMerge.MergeRuns(rest);
        assert blocks == blocks[..e] + rest;
        HeadingOfRuns(rest);
        HeadingAfter([joined], InlineMerge.MergeRuns(rest));
        HeadingAfter(blocks[..e], rest);
      }
    }
  }

  /** Blocks without a heading in front of a document leave its title as
      it is. */
  lemma HeadingAfter(front: seq<Block>, blocks: seq<Block>)
    requires forall j :: 0 <= j < |front| ==> !front[j].Heading?
    ensures FirstHeading(front + blocks) == FirstHeading(blocks)
  {
    FindAfter(front, blocks, IsHeading);
    match FindIndex(blocks, IsHeading, 0)
    case None =>
    case Some(k) => assert (front + blocks)[|front| + k] == blocks[k];
  }

  // -----------------------------------------------------------------------
  // Description

  /** What a segment contributes to the description: its `text` property,
      which every kind but the image has. */
  function PlainText(seg: Segment): string {
    if seg.Image? then "" else seg.text
  }

  /** A paragraph line's segments as plain text, joined with "". */
  function LineText(segs: seq<Segment>): string {
    Concat(seq(|segs|, i requires 0 <= i < |segs| => PlainText(segs[i])))
  }

  /** The plain text of each of a run of paragraphs. */
  function LineTexts(run: seq<Block>): (r: seq<string>)
    requires forall j :: 0 <= j < |run| ==> run[j].Inline?
    ensures |r| == |run| && forall j :: 0 <= j < |run| ==> r[j] == LineText(run[j].segments)
  {
    seq(|run|, j requires 0 <= j < |run| => LineText(run[j].segments))
  }

  /** `firstParagraphAsString`: from the first paragraph on, the plain text
      of each paragraph up to the first other block, joined with " "; `None`
      (`undefined`) when the document has no paragraph. */
  function FirstParagraph(blocks: seq<Block>): (r: Option<string>)
    ensures r.None? <==> forall i :: 0 <= i < |blocks| ==> !blocks[i].Inline?
  {
    match FindIndex(blocks, IsInline, 0)
    case None => None
    case Some(start) =>
      var end := InlineMerge.RunEnd(blocks, start);
      var texts := LineTexts(blocks[start..end]);
      if |texts| > 0 then Some(Join(texts, " ")) else None
  }

  /** In a document without neighbouring paragraphs, which is what
      `parseMarkdown` returns, the description is the plain text of the
      first paragraph alone. */
  lemma FirstParagraphSeparated(blocks: seq<Block>, i: nat)
    requires InlineMerge.Separated(blocks)
    requires i < |blocks| && blocks[i].Inline?
    requires forall j :: 0 <= j < i ==> !blocks[j].Inline?
    ensures FirstParagraph(blocks) == Some(LineText(blocks[i].segments))
  {
    FindIndexIs(blocks, IsInline, Some(i));
    if i + 1 < |blocks| {
      assert !blocks[i + 1].Inline?;
    }
    assert InlineMerge.RunEnd(blocks, i) == i + 1 by {
      assert InlineMerge.RunEnd(blocks, i + 1) == i + 1;
    }
    assert LineTexts(blocks[i..i + 1]) == [LineText(blocks[i].segments)];
  }

  /** Plain text distributes over concatenation. */
  lemma LineTextAppend(a: seq<Segment>, b: seq<Segment>)
    ensures LineText(a + b) == LineText(a) + LineText(b)
  {
    var ta := seq(|a|, i requires 0 <= i < |a| => PlainText(a[i]));
    var tb := seq(|b|, i requires 0 <= i < |b| => PlainText(b[i]));
    assert seq(|a + b|, i requires 0 <= i < |a + b| => PlainText((a + b)[i])) == ta + tb;
    ConcatAppend(ta, tb);
  }

  /** The plain text of a merged run is the run's texts joined with " ":
      the space segment the merge inserts is the space the description
      joins with. */
  lemma {:induction false} RunText(run: seq<Block>)
    requires |run| >= 1
    requires forall j :: 0 <= j < |run| ==> run[j].Inline?
    ensures LineText(InlineMerge.JoinRun(run)) == Join(LineTexts(run), " ")
    decreases |run|
  {
    if |run| == 1 {
      assert LineTexts(run) == [LineText(run[0].segments)];
    } else {
      var init := run[..|run| - 1];
      var last := run[|run| - 1].segments;
      RunText(init);
      LineTextAppend(InlineMerge.JoinRun(init) + [InlineMerge.Space], last);
      LineTextAppend(InlineMerge.JoinRun(init), [InlineMerge.Space]);
      assert LineText([InlineMerge.Space]) == " " by {
        assert seq(1, i requires 0 <= i < 1 => PlainText([InlineMerge.Space][i])) == [" "];
        assert Concat([" "]) == " " + Concat([]);
      }
      assert LineTexts(run) == LineTexts(init) + [LineText(last)];
      JoinAppend(LineTexts(init), [LineText(last)], " ");
    }
  }

  /** Merging paragraphs does not change the description: the loop of
      `firstParagraphAsString` over unmerged lines and the single merged
      paragraph give the same string. */
  lemma {:induction false} FirstParagraphMerged(blocks: seq<Block>)
    ensures FirstParagraph(InlineMerge.Merge(blocks)) == FirstParagraph(blocks)
  {
    InlineMerge.MergeIsMergeRuns(blocks);
    ParagraphOfRuns(blocks);
  }

  lemma {:induction false} ParagraphOfRuns(blocks: seq<Block>)
    ensures FirstParagraph(InlineMerge.MergeRuns(blocks)) == FirstParagraph(blocks)
    decreases |blocks|
  {
    if |blocks| > 0 {
      var m := InlineMerge.MergeRuns(blocks);
      if !blocks[0].Inline? {
        var rest := blocks[1..];
        assert m == [blocks[0]] + InlineMerge.MergeRuns(rest);
        assert blocks == [blocks[0]] + rest;
        ParagraphOfRuns(rest);
        ParagraphAfter(blocks[0], InlineMerge.MergeRuns(rest));
        ParagraphAfter(blocks[0], rest);
      } else {
        ParagraphLeads(blocks);
      }
    }
  }

  /** A document that starts with a run of paragraphs is described by that
      run, merged or not. */
  lemma ParagraphLeads(blocks: seq<Block>)
    requires |blocks| > 0 && blocks[0].Inline?
    ensures FirstParagraph(InlineMerge.MergeRuns(blocks)) == FirstParagraph(blocks)
  {
    var e := InlineMerge.RunEnd(blocks, 0);
    var run := blocks[..e];
    var rest := InlineMerge.MergeRuns(blocks[e..]);
    assert InlineMerge.MergeRuns(blocks) == [Inline(InlineMerge.JoinRun(run))] + rest;
    if e < |blocks| {
      StructuralLeads(blocks[e..]);
    }
    SingleParagraphLeads(Inline(InlineMerge.JoinRun(run)), rest);
    RunLeads(blocks);
    RunText(run);
  }

  /** A paragraph followed by anything but a paragraph is described by its
      own text. */
  lemma SingleParagraphLeads(p: Block, rest: seq<Block>)
    requires p.Inline? && (|rest| > 0 ==> !rest[0].Inline?)
    ensures FirstParagraph([p] + rest) == Some(LineText(p.segments))
  {
    var m := [p] + rest;
    assert FindIndex(m, IsInline, 0) == Some(0);
    assert InlineMerge.RunEnd(m, 0) == 1 by {
      assert InlineMerge.RunEnd(m, 1) == 1;
    }
    assert m[0..1] == [p];
    assert LineTexts([p]) == [LineText(p.segments)];
  }

  /** A document that starts with a paragraph is described by its leading
      run of paragraphs. */
  lemma RunLeads(blocks: seq<Block>)
    requires |blocks| > 0 && blocks[0].Inline?
    ensures FirstParagraph(blocks)
      == Some(Join(LineTexts(blocks[..InlineMerge.RunEnd(blocks, 0)]), " "))
  {
    assert FindIndex(blocks, IsInline, 0) == Some(0);
    assert blocks[0..InlineMerge.RunEnd(blocks, 0)] == blocks[..InlineMerge.RunEnd(blocks, 0)];
  }

  /** The reference merge keeps a leading non-paragraph block in front. */
  lemma StructuralLeads(blocks: seq<Block>)
    requires |blocks| > 0 && !blocks[0].Inline?
    ensures InlineMerge.MergeRuns(blocks)[0] == blocks[0]
  {
  }

  /** A non-paragraph block in front of a document leaves its description
      as it is. */
  lemma ParagraphAfter(b: Block, blocks: seq<Block>)
    requires !b.Inline?
    ensures FirstParagraph([b] + blocks) == FirstParagraph(blocks)
  {
    var whole := [b] + blocks;
    FindAfter([b], blocks, IsInline);
    var f := FindIndex(blocks, IsInline, 0);
    if f.Some? {
      var k := f.value;
      var e := InlineMerge.RunEnd(blocks, k);
      RunEndShift(b, blocks, k);
      assert FindIndex(whole, IsInline, 0) == Some(k + 1);
      assert LineTexts(whole[k + 1..e + 1]) == LineTexts(blocks[k..e]) by {
        assert whole[k + 1..e + 1] == blocks[k..e];
      }
    }
  }

  /** Run ends move with the blocks. */
  lemma {:induction false} RunEndShift(b: Block, blocks: seq<Block>, k: nat)
    requires k <= |blocks|
    ensures InlineMerge.RunEnd([b] + blocks, k + 1) == InlineMerge.RunEnd(blocks, k) + 1
    decreases |blocks| - k
  {
    if k < |blocks| {
      assert ([b] + blocks)[k + 1] == blocks[k];
      if blocks[k].Inline? {
        RunEndShift(b, blocks, k + 1);
      }
    }
  }
}
