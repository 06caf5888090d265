/** `mergeInlineBlocks`: consecutive paragraph lines become one paragraph
    (www/iinm.github.io/lib/markdown.js:55-76, lib/markdown.js:20-41,
    posts/main.js:168-183, src/renderer.ts:167-182, src/renderer.js:155-170;
    the five copies are the same loop).

    The loop walks the top-level blocks once; an inline block that follows
    an inline block is appended to it, behind a one-space text segment.
    Blocks nested in quotes and list items are not visited. */
module InlineMerge {
  import opened Syntax

  /** The segment the loop puts between two merged lines. */
  const Space: Segment := Text(" ")

  /** One turn of the loop: `block` either extends the last merged block or
      is pushed. */
  function Step(merged: seq<Block>, block: Block): (r: seq<Block>)
    ensures |r| == |merged| + (if Extends(merged, block) then 0 else 1)
  {
    if Extends(merged, block) then
      var last := merged[|merged| - 1];
      merged[..|merged| - 1] + [Inline(last.segments + [Space] + block.segments)]
    else
      merged + [block]
  }

  /** The condition of the loop's `if`. */
  predicate Extends(merged: seq<Block>, block: Block) {
    |merged| > 0 && merged[|merged| - 1].Inline? && block.Inline?
  }

  /** No two neighbouring blocks are both paragraphs. */
  predicate Separated(blocks: seq<Block>) {
    forall i :: 0 < i < |blocks| ==> !(blocks[i - 1].Inline? && blocks[i].Inline?)
  }

  /** The blocks that are not paragraphs, in order. */
  function Structural(blocks: seq<Block>): seq<Block>
    decreases |blocks|
  {
    if |blocks| == 0 then []
    else
      var last := blocks[|blocks| - 1];
      Structural(blocks[..|blocks| - 1]) + (if last.Inline? then [] else [last])
  }

  /** `mergeInlineBlocks`: the loop, block by block from the first. The
      result has no two paragraphs in a row, keeps every other block in
      order, and is empty exactly when the input is. */
  function Merge(blocks: seq<Block>): (r: seq<Block>)
    ensures Separated(r)
    ensures Structural(r) == Structural(blocks)
    ensures |r| <= |blocks|
    ensures |r| == 0 <==> |blocks| == 0
    ensures |r| > 0 ==> (r[|r| - 1].Inline? <==> blocks[|blocks| - 1].Inline?)
    decreases |blocks|
  {
    if |blocks| == 0 then []
    else
      var init := Merge(blocks[..|blocks| - 1]);
      var last := blocks[|blocks| - 1];
      var r := Step(init, last);
      StepStructural(init, last);
      r
  }

  /** How many paragraphs directly follow a paragraph. */
  function Absorbed(blocks: seq<Block>): nat
    decreases |blocks|
  {
    if |blocks| < 2 then 0
    else
      var n := |blocks|;
      Absorbed(blocks[..n - 1]) + (if blocks[n - 2].Inline? && blocks[n - 1].Inline? then 1 else 0)
  }

  /** The loop drops exactly one block for every paragraph that directly
      follows a paragraph. */
  lemma {:induction false} MergeLength(blocks: seq<Block>)
    ensures |Merge(blocks)| == |blocks| - Absorbed(blocks)
    decreases |blocks|
  {
    if |blocks| > 0 {
      var init, last := blocks[..|blocks| - 1], blocks[|blocks| - 1];
      MergeLength(init);
      var m := Merge(init);
      assert Merge(blocks) == Step(m, last);
      if |blocks| >= 2 {
        assert init[|init| - 1] == blocks[|blocks| - 2];
        assert Extends(m, last) <==> blocks[|blocks| - 2].Inline? && last.Inline?;
      } else {
        assert !Extends(m, last);
      }
    }
  }

  /** A step changes the non-paragraph blocks only by appending a pushed
      non-paragraph block. */
  lemma StepStructural(merged: seq<Block>, block: Block)
    ensures Structural(Step(merged, block)) == Structural(merged) + (if block.Inline? then [] else [block])
  {
    var r := Step(merged, block);
    if Extends(merged, block) {
      var init := merged[..|merged| - 1];
      assert r[..|r| - 1] == init;
      assert Structural(r) == Structural(init);
      assert Structural(merged) == Structural(init);
    } else {
      assert r[..|r| - 1] == merged;
    }
  }

  // -----------------------------------------------------------------------
  // The reference: maximal runs of paragraphs

  /** The end of the run of paragraphs starting at `i`. */
  function RunEnd(blocks: seq<Block>, i: nat): (e: nat)
    requires i <= |blocks|
    ensures i <= e <= |blocks|
    ensures forall j :: i <= j < e ==> blocks[j].Inline?
    ensures e < |blocks| ==> !blocks[e].Inline?
    decreases |blocks| - i
  {
    if i == |blocks| || !blocks[i].Inline? then i else RunEnd(blocks, i + 1)
  }

  /** The segments of a run of paragraphs, one space segment between
      neighbours. */
  function JoinRun(run: seq<Block>): seq<Segment>
    requires |run| >= 1
    requires forall j :: 0 <= j < |run| ==> run[j].Inline?
    decreases |run|
  {
    if |run| == 1 then run[0].segments
    else JoinRun(run[..|run| - 1]) + [Space] + run[|run| - 1].segments
  }

  /** The reference definition: every maximal run of paragraphs becomes one
      paragraph holding the run's segments, one space segment between
      lines; every other block stays as it is. */
  function MergeRuns(blocks: seq<Block>): (r: seq<Block>)
    ensures |r| == 0 <==> |blocks| == 0
    decreases |blocks|
  {
    if |blocks| == 0 then []
    else if !blocks[0].Inline? then [blocks[0]] + MergeRuns(blocks[1..])
    else
      var e := RunEnd(blocks, 0);
      [Inline(JoinRun(blocks[..e]))] + MergeRuns(blocks[e..])
  }

  /** A step on the front-appended sequence is the step on the rest,
      behind the same front. */
  lemma StepBehind(front: seq<Block>, m: seq<Block>, x: Block)
    requires |m| > 0
    ensures Step(front + m, x) == front + Step(m, x)
  {
    if Extends(m, x) {
      assert (front + m)[..|front + m| - 1] == front + m[..|m| - 1];
    }
  }

  /** Appending a block to the input is one loop step on the reference's
      result. */
  lemma {:induction false} MergeRunsSnoc(blocks: seq<Block>, x: Block)
    ensures MergeRuns(blocks + [x]) == Step(MergeRuns(blocks), x)
    decreases |blocks|, 1
  {
    if |blocks| == 0 {
      SnocEmpty(x);
    } else if !blocks[0].Inline? {
      SnocAfterStructural(blocks, x);
    } else if RunEnd(blocks, 0) < |blocks| {
      SnocAfterRun(blocks, x);
    } else if x.Inline? {
      SnocExtendsRun(blocks, x);
    } else {
      SnocClosesRun(blocks, x);
    }
  }

  lemma SnocEmpty(x: Block)
    ensures MergeRuns([x]) == Step([], x)
  {
    if x.Inline? {
      assert RunEnd([x], 0) == 1;
      assert [x][..1] == [x] && [x][1..] == [];
    } else {
      assert [x][1..] == [];
    }
  }

  lemma {:induction false} SnocAfterStructural(blocks: seq<Block>, x: Block)
    requires |blocks| > 0 && !blocks[0].Inline?
    ensures MergeRuns(blocks + [x]) == Step(MergeRuns(blocks), x)
    decreases |blocks|, 0
  {
    var rest := blocks[1..];
    assert (blocks + [x])[1..] == rest + [x];
    assert MergeRuns(blocks + [x]) == [blocks[0]] + MergeRuns(rest + [x]);
    MergeRunsSnoc(rest, x);
    if |rest| > 0 {
      StepBehind([blocks[0]], MergeRuns(rest), x);
    } else {
      assert blocks == [blocks[0]];
    }
  }

  lemma {:induction false} SnocAfterRun(blocks: seq<Block>, x: Block)
    requires |blocks| > 0 && blocks[0].Inline? && RunEnd(blocks, 0) < |blocks|
    ensures MergeRuns(blocks + [x]) == Step(MergeRuns(blocks), x)
    decreases |blocks|, 0
  {
    var bx := blocks + [x];
    var e := RunEnd(blocks, 0);
    var head := Inline(JoinRun(blocks[..e]));
    RunEndPrefix(blocks, x, 0);
    assert bx[0] == blocks[0];
    assert bx[..e] == blocks[..e];
    assert bx[e..] == blocks[e..] + [x];
    assert MergeRuns(bx) == [head] + MergeRuns(blocks[e..] + [x]);
    MergeRunsSnoc(blocks[e..], x);
    StepBehind([head], MergeRuns(blocks[e..]), x);
  }

  lemma SnocExtendsRun(blocks: seq<Block>, x: Block)
    requires |blocks| > 0 && blocks[0].Inline? && RunEnd(blocks, 0) == |blocks|
    requires x.Inline?
    ensures MergeRuns(blocks + [x]) == Step(MergeRuns(blocks), x)
  {
    JoinRunSnoc(blocks, x);
    WholeRun(blocks);
    WholeRun(blocks + [x]);
    StepOnto(JoinRun(blocks), x);
  }

  /** Appending a paragraph to a run appends its segments behind a space. */
  lemma JoinRunSnoc(blocks: seq<Block>, x: Block)
    requires |blocks| > 0 && RunEnd(blocks, 0) == |blocks|
    requires x.Inline?
    ensures forall j :: 0 <= j < |blocks + [x]| ==> (blocks + [x])[j].Inline?
    ensures JoinRun(blocks + [x]) == JoinRun(blocks) + [Space] + x.segments
  {
    var bx := blocks + [x];
    assert forall j :: 0 <= j < |bx| ==> bx[j].Inline?;
    assert bx[..|bx| - 1] == blocks;
  }

  /** The loop step that appends a paragraph to a lone paragraph. */
  lemma StepOnto(segments: seq<Segment>, x: Block)
    requires x.Inline?
    ensures Step([Inline(segments)], x) == [Inline(segments + [Space] + x.segments)]
  {
  }

  /** A sequence that is one run of paragraphs merges into one paragraph. */
  lemma WholeRun(blocks: seq<Block>)
    requires |blocks| > 0
    requires forall j :: 0 <= j < |blocks| ==> blocks[j].Inline?
    ensures MergeRuns(blocks) == [Inline(JoinRun(blocks))]
  {
    RunEndWhole(blocks);
    assert blocks[..|blocks|] == blocks && blocks[|blocks|..] == [];
  }

  lemma SnocClosesRun(blocks: seq<Block>, x: Block)
    requires |blocks| > 0 && blocks[0].Inline? && RunEnd(blocks, 0) == |blocks|
    requires !x.Inline?
    ensures MergeRuns(blocks + [x]) == Step(MergeRuns(blocks), x)
  {
    var bx := blocks + [x];
    var e := |blocks|;
    assert blocks[..e] == blocks && blocks[e..] == [];
    assert MergeRuns(blocks) == [Inline(JoinRun(blocks))];
    RunEndPrefix(blocks, x, 0);
    assert bx[0] == blocks[0];
    assert bx[..e] == blocks;
    assert bx[e..] == [x];
    assert [x][1..] == [];
    assert MergeRuns(bx) == [Inline(JoinRun(blocks))] + MergeRuns([x]);
  }

  /** Appending a block does not move a run end found inside the
      sequence, nor one that reaches its end when the block is not a
      paragraph. */
  lemma {:induction false} RunEndPrefix(blocks: seq<Block>, x: Block, i: nat)
    requires i <= |blocks|
    requires RunEnd(blocks, i) < |blocks| || !x.Inline?
    ensures RunEnd(blocks + [x], i) == RunEnd(blocks, i)
    decreases |blocks| - i
  {
    var bx := blocks + [x];
    if i < |blocks| && blocks[i].Inline? {
      assert bx[i] == blocks[i];
      RunEndPrefix(blocks, x, i + 1);
    }
  }

  /** A sequence of paragraphs is one run. */
  lemma {:induction false} RunEndWhole(blocks: seq<Block>)
    requires forall j :: 0 <= j < |blocks| ==> blocks[j].Inline?
    ensures RunEnd(blocks, 0) == |blocks|
  {
    var i := |blocks|;
    while i > 0
      invariant 0 <= i <= |blocks|
      invariant RunEnd(blocks, i) == |blocks|
    {
      i := i - 1;
    }
  }

  /** The loop computes the reference: each maximal run of paragraphs is
      merged into one, and nothing else changes. */
  lemma {:induction false} MergeIsMergeRuns(blocks: seq<Block>)
    ensures Merge(blocks) == MergeRuns(blocks)
    decreases |blocks|
  {
    if |blocks| > 0 {
      var init := blocks[..|blocks| - 1];
      MergeIsMergeRuns(init);
      MergeRunsSnoc(init, blocks[|blocks| - 1]);
      assert init + [blocks[|blocks| - 1]] == blocks;
    }
  }

  /** A sequence without neighbouring paragraphs is left as it is. */
  lemma {:induction false} MergeSeparated(blocks: seq<Block>)
    requires Separated(blocks)
    ensures Merge(blocks) == blocks
    decreases |blocks|
  {
    if |blocks| > 0 {
      var init := blocks[..|blocks| - 1];
      assert Separated(init);
      MergeSeparated(init);
      assert init + [blocks[|blocks| - 1]] == blocks;
    }
  }

  /** Merging twice is merging once. */
  lemma MergeIdempotent(blocks: seq<Block>)
    ensures Merge(Merge(blocks)) == Merge(blocks)
  {
    MergeSeparated(Merge(blocks));
  }
}
