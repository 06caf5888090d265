/** Worked inputs of the inline segmenter chain: how the rightmost-match
    rule and the capture classes decide what a line of nested emphasis
    becomes (src/markdown.ts:266-276, 317-346; the same chain head in
    www/iinm.github.io/lib/markdown.js:385-462, lib/markdown.js:349-426
    and modules/markdown.js:21-95). */
module InlineCases {
  import opened Wrappers
  import opened JsText
  import opened Syntax
  import opened InlineParser

  /** A chain that starts image, link (or url), bold, `*`-italic, as every
      parser generation's does. */
  predicate StarHead(chain: seq<InlineParser.Segmenter>) {
    && |chain| >= 4
    && chain[0] == ImageSegmenter
    && (chain[1] == LinkSegmenter || chain[1] == UrlSegmenter)
    && chain[2] == BoldSegmenter
    && chain[3] == StarItalicSegmenter
  }

  /** A non-empty text shorter than any markup is one text segment. */
  lemma ShortIsText(chain: seq<InlineParser.Segmenter>, s: string)
    requires 0 < |s| < 3 && NoLineTerminator(s)
    ensures ParseInline(chain, s) == [Text(s)]
  {
    forall j | 0 <= j < |chain| ensures InlineParser.Segment(chain[j], s).None? {
      SegmentNone(chain[j], s);
    }
    Unmatched(chain, s);
  }

  /** The image, link and url segmenters find nothing in a text without
      `!` and `[`. */
  lemma NoBrackets(k: InlineParser.Segmenter, s: string)
    requires NoLineTerminator(s)
    requires k == ImageSegmenter || k == LinkSegmenter || k == UrlSegmenter
    requires forall i :: 0 <= i < |s| ==> s[i] != '!' && s[i] != '['
    ensures InlineParser.Segment(k, s).None?
  {
    forall j | 0 <= j <= |s| ensures Lead(k, s[j..]).None? {
      if j < |s| {
        assert s[j..][0] == s[j];
      }
    }
    SegmentNone(k, s);
  }

  /** `**a*b`: the bold pattern needs `**`, text without `*`, and `**`. */
  lemma NoBoldInHead()
    ensures InlineParser.Segment(BoldSegmenter, "**a*b").None?
  {
    var s := "**a*b";
    forall j | 0 <= j <= |s| ensures Lead(BoldSegmenter, s[j..]).None? {
      var t := s[j..];
      if j == 0 {
        assert FindChar(t, 2, '*') == 3;
        assert t[3..5] == "*b";
      } else {
        assert t == [] || t[0] != '*' || (|t| >= 2 && t[1] != '*') || |t| == 1;
      }
    }
    SegmentNone(BoldSegmenter, s);
  }

  /** `**a*b*c**`: no bold either; the only `**` pairs enclose `a*b*c`,
      which holds `*`. */
  lemma NoBoldInStars()
    ensures InlineParser.Segment(BoldSegmenter, "**a*b*c**").None?
  {
    var s := "**a*b*c**";
    forall j | 0 <= j <= |s| ensures Lead(BoldSegmenter, s[j..]).None? {
      var t := s[j..];
      if j == 0 {
        assert FindChar(t, 2, '*') == 3;
        assert t[3..5] == "*b";
      } else if j == 7 {
        assert t == "**";
        assert FindChar(t, 2, '*') == 2;
      } else {
        assert t == [] || t[0] != '*' || (|t| >= 2 && t[1] != '*') || |t| == 1;
      }
    }
    SegmentNone(BoldSegmenter, s);
  }

  /** The rightmost `*`-italic of `**a*b` is `*a*`. */
  lemma ItalicInHead()
    ensures InlineParser.Segment(StarItalicSegmenter, "**a*b") == Some(Split("*", Italic("a"), "b"))
  {
    var s := "**a*b";
    var k := StarItalicSegmenter;
    assert Lead(k, s[1..]) == Some(Hit(Italic("a"), 3)) by {
      assert s[1..] == "*a*b";
      assert FindChar(s[1..], 1, '*') == 2;
      assert s[1..][2..3] == "*" && s[1..][1..2] == "a";
    }
    forall j | 1 < j <= |s| ensures Lead(k, s[j..]).None? {
      var t := s[j..];
      if j == 3 {
        assert t == "*b";
        assert FindChar(t, 1, '*') == 2;
      } else {
        assert t == [] || t[0] != '*';
      }
    }
    LastHitIs(k, s, 1);
    assert s[..1] == "*" && s[4..] == "b";
  }

  /** The rightmost `*`-italic of `**a*b*c**` is `*c*`. */
  lemma ItalicInStars()
    ensures InlineParser.Segment(StarItalicSegmenter, "**a*b*c**") == Some(Split("**a*b", Italic("c"), "*"))
  {
    var s := "**a*b*c**";
    var k := StarItalicSegmenter;
    assert Lead(k, s[5..]) == Some(Hit(Italic("c"), 3)) by {
      assert s[5..] == "*c**";
      assert FindChar(s[5..], 1, '*') == 2;
      assert s[5..][2..3] == "*" && s[5..][1..2] == "c";
    }
    forall j | 5 < j <= |s| ensures Lead(k, s[j..]).None? {
      var t := s[j..];
      if j == 7 {
        assert t == "**";
        assert FindChar(t, 1, '*') == 1;
      } else if j == 8 {
        assert t == "*";
        assert FindChar(t, 1, '*') == 1;
      } else {
        assert t == [] || t[0] != '*';
      }
    }
    LastHitIs(k, s, 5);
    assert s[..5] == "**a*b" && s[8..] == "*";
  }

  /** One step of `parseInline`: the first segmenter that matches splits
      the text, and both sides are parsed from the head of the chain. */
  lemma SplitStep(chain: seq<InlineParser.Segmenter>, s: string, i: nat, sp: InlineParser.Split)
    requires NoLineTerminator(s) && s != ""
    requires FirstMatch(chain, s) == Some(i) && InlineParser.Segment(chain[i], s) == Some(sp)
    ensures NoLineTerminator(sp.before) && NoLineTerminator(sp.after)
    ensures ParseInline(chain, s) == ParseInline(chain, sp.before) + [sp.segment] + ParseInline(chain, sp.after)
  {
    SegmentShape(chain[i], s);
  }

  /** In `**a*b` and in `**a*b*c**` the first segmenter of the chain
      that matches is the `*`-italic one. */
  lemma ItalicFirst(chain: seq<InlineParser.Segmenter>, s: string)
    requires StarHead(chain)
    requires s == "**a*b" || s == "**a*b*c**"
    ensures NoLineTerminator(s) && FirstMatch(chain, s) == Some(3)
  {
    NoBrackets(chain[0], s);
    NoBrackets(chain[1], s);
    if s == "**a*b" {
      NoBoldInHead();
      ItalicInHead();
    } else {
      NoBoldInStars();
      ItalicInStars();
    }
    assert InlineParser.Segment(chain[2], s).None?;
    forall j | 0 <= j < 3 ensures InlineParser.Segment(chain[j], s).None? {
      if j == 0 {
      } else if j == 1 {
      } else {
        assert j == 2;
      }
    }
    FirstMatchIs(chain, s, 3);
  }

  /** `**a*b` is text `*`, italic `a`, text `b`. */
  lemma HeadSegments(chain: seq<InlineParser.Segmenter>)
    requires StarHead(chain)
    ensures ParseInline(chain, "**a*b") == [Text("*"), Italic("a"), Text("b")]
  {
    var s := "**a*b";
    ItalicFirst(chain, s);
    ItalicInHead();
    SplitStep(chain, s, 3, Split("*", Italic("a"), "b"));
    ShortIsText(chain, "*");
    ShortIsText(chain, "b");
  }

  /** The first cut of `**a*b*c**` is the italic `c`. */
  lemma StarsFirstCut(chain: seq<InlineParser.Segmenter>)
    requires StarHead(chain)
    ensures ParseInline(chain, "**a*b*c**") == ParseInline(chain, "**a*b") + [Italic("c")] + ParseInline(chain, "*")
  {
    var s := "**a*b*c**";
    ItalicFirst(chain, s);
    ItalicInStars();
    SplitStep(chain, s, 3, Split("**a*b", Italic("c"), "*"));
  }

  /** `**a*b*c**` is not bold, because bold text excludes `*`: the
      rightmost `*`-italic is cut first, then the one left of it, and the
      stars left over stay text. */
  lemma StarsAreNotBold(chain: seq<InlineParser.Segmenter>)
    requires StarHead(chain)
    ensures ParseInline(chain, "**a*b*c**") == [Text("*"), Italic("a"), Text("b"), Italic("c"), Text("*")]
  {
    var left, right := ParseInline(chain, "**a*b"), ParseInline(chain, "*");
    assert ParseInline(chain, "**a*b*c**") == left + [Italic("c")] + right by {
      StarsFirstCut(chain);
    }
    assert left == [Text("*"), Italic("a"), Text("b")] by {
      HeadSegments(chain);
    }
    assert right == [Text("*")] by {
      ShortIsText(chain, "*");
    }
    Spliced(Text("*"), Italic("a"), Text("b"), Italic("c"), Text("*"));
  }

  /** Splicing one segment and then another onto three gives the five in
      order. Stated over an arbitrary element type so that the solver
      does not unfold the segments' parse while matching the lists. */
  lemma Spliced<T>(a: T, b: T, c: T, d: T, e: T)
    ensures [a, b, c] + [d] + [e] == [a, b, c, d, e]
  {
  }
}
