/** The inline segmenter chain: `parseInline` and its segmenters
    (www/iinm.github.io/lib/markdown.js:385-492, lib/markdown.js:349-442,
    src/markdown.ts:266-362, modules/markdown.js:21-97).

    Every segmenter is a regex `(.*)X(.*)` without flags. On a string
    without line terminators the greedy leading `(.*)` makes the engine
    try `X` at the last index first and walk left, so the match is the
    RIGHTMOST index at which `X` matches, `before` is everything left of
    it and `after` everything right of it. */
module InlineParser {
  import opened Wrappers
  import opened JsText
  import opened Syntax

  /** The segmenters the parser generations draw their chains from. */
  datatype Segmenter =
    | ImageSegmenter             // !\[([^\]]*)\]\(([^\)]+)\)
    | LinkSegmenter              // \[([^\]]+)\]\(([^\)]+)\)   tagged 'link'
    | UrlSegmenter               // the same pattern, tagged 'url'
    | BoldSegmenter              // \*\*([^*]+)\*\*
    | StarItalicSegmenter        // \*([^*]+)\*
    | UnderscoreItalicSegmenter  // _([^_]+)_
    | CodeSegmenter              // `([^`]+)`

  /** `X` matched at the start of a string: the segment built from its
      capture groups and the number of characters `X` spans. */
  datatype Hit = Hit(segment: Segment, len: nat)

  /** What a segmenter returns when it matches. */
  datatype Split = Split(before: string, segment: Segment, after: string)

  /** The Markdown spelling of a segment: the inverse of the segmenters. */
  function Render(seg: Segment): string {
    match seg
    case Text(t) => t
    case Image(alt, src) => "![" + alt + "](" + src + ")"
    case Link(t, u) => "[" + t + "](" + u + ")"
    case Url(t, u) => "[" + t + "](" + u + ")"
    case Bold(t) => "**" + t + "**"
    case Italic(t) => "*" + t + "*"
    case Code(t) => "`" + t + "`"
  }

  /** The source text a segmenter consumed for `seg`; only `_t_` differs
      from `Render`, since the italic segment does not record which
      delimiter produced it. */
  function Source(k: Segmenter, seg: Segment): string {
    if k.UnderscoreItalicSegmenter? && seg.Italic? then "_" + seg.text + "_" else Render(seg)
  }

  /** The segment constructor each segmenter produces. */
  predicate Produces(k: Segmenter, seg: Segment) {
    match k
    case ImageSegmenter => seg.Image?
    case LinkSegmenter => seg.Link?
    case UrlSegmenter => seg.Url?
    case BoldSegmenter => seg.Bold?
    case StarItalicSegmenter => seg.Italic? && '*' !in seg.text
    case UnderscoreItalicSegmenter => seg.Italic? && '_' !in seg.text
    case CodeSegmenter => seg.Code?
  }

  /** The capture-group constraints every segment the chain produces
      meets. */
  predicate WellFormed(seg: Segment) {
    match seg
    case Text(t) => t != ""
    case Image(alt, src) => src != "" && ']' !in alt && ')' !in src
    case Link(t, u) => t != "" && u != "" && ']' !in t && ')' !in u
    case Url(t, u) => t != "" && u != "" && ']' !in t && ')' !in u
    case Bold(t) => t != "" && '*' !in t
    case Italic(t) => t != "" && ('*' !in t || '_' !in t)
    case Code(t) => t != "" && '`' !in t
  }

  /** `\[([^\]]*)\]\(([^\)]+)\)` at the start of `t` (with `+` for the
      text group when `emptyText` is false): the bracket text, the
      parenthesised target and the length. Each class excludes the
      character that closes it, so the first `]` and the first `)` after
      it are the only candidates. */
  function Bracketed(t: string, emptyText: bool): (r: Option<(string, string, nat)>)
    ensures r.Some? ==>
      var (text, target, n) := r.value;
      && 5 <= n <= |t|
      && t[..n] == "[" + text + "](" + target + ")"
      && (emptyText || text != "") && target != ""
      && ']' !in text && ')' !in target
  {
    if |t| == 0 || t[0] != '[' then None
    else
      var j1 := FindChar(t, 1, ']');
      if j1 == |t| || (!emptyText && j1 == 1) || j1 + 1 == |t| || t[j1 + 1] != '(' then None
      else
        var j2 := FindChar(t, j1 + 2, ')');
        if j2 == |t| || j2 == j1 + 2 then None
        else
          var text, target := t[1..j1], t[j1 + 2..j2];
          assert t[..j2 + 1] == "[" + text + "](" + target + ")";
          Some((text, target, j2 + 1))
  }

  /** `open([^c]+)close` at the start of `t`, where `close` begins with
      `c`; the inner text and the length. */
  function Delimited(t: string, open: string, close: string, c: char): (r: Option<(string, nat)>)
    requires |open| >= 1 && |close| >= 1 && close[0] == c
    ensures r.Some? ==>
      var (inner, n) := r.value;
      && |open| + 1 + |close| <= n <= |t|
      && t[..n] == open + inner + close
      && inner != "" && c !in inner
  {
    if !StartsWith(t, open) then None
    else
      var j := FindChar(t, |open|, c);
      if j == |open| || j + |close| > |t| || t[j..j + |close|] != close then None
      else
        var inner := t[|open|..j];
        assert t[..j + |close|] == open + inner + close;
        Some((inner, j + |close|))
  }

  /** The pattern `X` of segmenter `k` matched at the start of `t`. */
  function Lead(k: Segmenter, t: string): (m: Option<Hit>)
    ensures m.Some? ==> 3 <= m.value.len <= |t|
  {
    match k
    case ImageSegmenter =>
      if |t| == 0 || t[0] != '!' then None
      else (match Bracketed(t[1..], true)
        case None => None
        case Some((alt, src, n)) =>
          Some(Hit(Image(alt, src), n + 1)))
    case LinkSegmenter =>
      (match Bracketed(t, false)
        case None => None
        case Some((text, url, n)) => Some(Hit(Link(text, url), n)))
    case UrlSegmenter =>
      (match Bracketed(t, false)
        case None => None
        case Some((text, url, n)) => Some(Hit(Url(text, url), n)))
    case BoldSegmenter =>
      (match Delimited(t, "**", "**", '*')
        case None => None
        case Some((inner, n)) => Some(Hit(Bold(inner), n)))
    case StarItalicSegmenter =>
      (match Delimited(t, "*", "*", '*')
        case None => None
        case Some((inner, n)) => Some(Hit(Italic(inner), n)))
    case UnderscoreItalicSegmenter =>
      (match Delimited(t, "_", "_", '_')
        case None => None
        case Some((inner, n)) => Some(Hit(Italic(inner), n)))
    case CodeSegmenter =>
      (match Delimited(t, "`", "`", '`')
        case None => None
        case Some((inner, n)) => Some(Hit(Code(inner), n)))
  }

  /** What `X` consumed is exactly the Markdown source of the segment it
      built, and the segment has the constructor and capture constraints
      of its segmenter. */
  lemma LeadShape(k: Segmenter, t: string)
    requires Lead(k, t).Some?
    ensures t[..Lead(k, t).value.len] == Source(k, Lead(k, t).value.segment)
    ensures Produces(k, Lead(k, t).value.segment) && WellFormed(Lead(k, t).value.segment)
  {
    if k.ImageSegmenter? || k.LinkSegmenter? || k.UrlSegmenter? {
      BracketedLeadShape(k, t);
    }
  }

  /** `LeadShape` for the image and link segmenters. */
  lemma BracketedLeadShape(k: Segmenter, t: string)
    requires k.ImageSegmenter? || k.LinkSegmenter? || k.UrlSegmenter?
    requires Lead(k, t).Some?
    ensures t[..Lead(k, t).value.len] == Source(k, Lead(k, t).value.segment)
    ensures Produces(k, Lead(k, t).value.segment) && WellFormed(Lead(k, t).value.segment)
  {
    if k.ImageSegmenter? {
      var (alt, src, n) := Bracketed(t[1..], true).value;
      assert t[..n + 1] == [t[0]] + t[1..][..n];
    }
  }

  /** The largest index `i <= j` at which `X` matches, with its hit. */
  function LastHitUpTo(k: Segmenter, s: string, j: nat): (r: Option<(nat, Hit)>)
    requires j <= |s|
    ensures r.Some? ==> r.value.0 <= j && Lead(k, s[r.value.0..]) == Some(r.value.1)
    ensures forall i :: (if r.Some? then r.value.0 + 1 else 0) <= i <= j ==> Lead(k, s[i..]).None?
    decreases j
  {
    var m := Lead(k, s[j..]);
    if m.Some? then Some((j, m.value))
    else if j == 0 then None
    else LastHitUpTo(k, s, j - 1)
  }

  /** The largest index at which `X` matches, with its hit: the
      backtracking of the greedy leading `(.*)`, which tries the last
      index first. */
  function LastHit(k: Segmenter, s: string): (r: Option<(nat, Hit)>)
    ensures r.Some? ==> r.value.0 <= |s| && Lead(k, s[r.value.0..]) == Some(r.value.1)
    ensures forall j :: (if r.Some? then r.value.0 + 1 else 0) <= j <= |s| ==> Lead(k, s[j..]).None?
  {
    LastHitUpTo(k, s, |s|)
  }

  /** The rightmost match is the one `LastHit` finds. */
  lemma LastHitIs(k: Segmenter, s: string, i: nat)
    requires i <= |s| && Lead(k, s[i..]).Some?
    requires forall j :: i < j <= |s| ==> Lead(k, s[j..]).None?
    ensures LastHit(k, s) == Some((i, Lead(k, s[i..]).value))
  {
    var r := LastHit(k, s);
    assert r.Some?;
    assert !(r.value.0 < i) && !(i < r.value.0);
  }

  /** Segmenter `k` applied to `s`: `undefined` when `X` occurs nowhere,
      otherwise the split around its rightmost occurrence. */
  function Segment(k: Segmenter, s: string): (r: Option<Split>)
    requires NoLineTerminator(s)
    ensures r.Some? ==> |r.value.before| + |r.value.after| + 3 <= |s|
  {
    match LastHit(k, s)
    case None => None
    case Some((i, h)) => Some(Split(s[..i], h.segment, s[i + h.len..]))
  }

  /** A split puts back together to the input: `before`, the markup `X`
      consumed and `after`, with a well-formed segment of the segmenter's
      own kind; and `X` occurs at no index right of `before`. */
  lemma SegmentShape(k: Segmenter, s: string)
    requires NoLineTerminator(s) && Segment(k, s).Some?
    ensures var sp := Segment(k, s).value;
      && sp.before == s[..|sp.before|] && sp.after == s[|s| - |sp.after|..]
      && s == sp.before + Source(k, sp.segment) + sp.after
      && Produces(k, sp.segment) && WellFormed(sp.segment)
    ensures var sp := Segment(k, s).value;
      forall j :: |sp.before| < j <= |s| ==> Lead(k, s[j..]).None?
  {
    var sp := Segment(k, s).value;
    SegmentRebuild(k, s, sp);
    SegmentRightmost(k, s, sp);
  }

  /** The split of `s` rebuilds `s`, with a segment of the segmenter's
      kind. */
  lemma SegmentRebuild(k: Segmenter, s: string, sp: Split)
    requires NoLineTerminator(s) && Segment(k, s) == Some(sp)
    ensures sp.before == s[..|sp.before|] && sp.after == s[|s| - |sp.after|..]
    ensures s == sp.before + Source(k, sp.segment) + sp.after
    ensures Produces(k, sp.segment) && WellFormed(sp.segment)
  {
    var (i, h) := LastHit(k, s).value;
    assert sp == Split(s[..i], h.segment, s[i + h.len..]);
    var t := s[i..];
    LeadShape(k, t);
    assert s == s[..i] + t[..h.len] + s[i + h.len..];
  }

  /** No occurrence of `X` starts right of `before`. */
  lemma SegmentRightmost(k: Segmenter, s: string, sp: Split)
    requires NoLineTerminator(s) && Segment(k, s) == Some(sp)
    ensures forall j :: |sp.before| < j <= |s| ==> Lead(k, s[j..]).None?
  {
    var (i, h) := LastHit(k, s).value;
    assert |sp.before| == i;
  }

  /** A segmenter declines exactly when its markup `X` matches at no
      index of the text. */
  lemma SegmentNone(k: Segmenter, s: string)
    requires NoLineTerminator(s)
    ensures Segment(k, s).None? <==> forall j :: 0 <= j <= |s| ==> Lead(k, s[j..]).None?
  {
  }

  /** Whether segmenter `k` finds its markup in `s`. */
  predicate Matches(s: string, k: Segmenter) {
    NoLineTerminator(s) && Segment(k, s).Some?
  }

  /** The position in `chain` of the first segmenter that matches `s`. */
  function FirstMatch(chain: seq<Segmenter>, s: string): (r: Option<nat>)
    requires NoLineTerminator(s)
    ensures r.Some? ==> r.value < |chain| && Segment(chain[r.value], s).Some?
    ensures forall j :: 0 <= j < (if r.Some? then r.value else |chain|) ==> Segment(chain[j], s).None?
  {
    FindIndex(chain, k => Matches(s, k), 0)
  }

  /** The first segmenter that matches is the one `FirstMatch` finds. */
  lemma FirstMatchIs(chain: seq<Segmenter>, s: string, i: nat)
    requires NoLineTerminator(s)
    requires i < |chain| && Segment(chain[i], s).Some?
    requires forall j :: 0 <= j < i ==> Segment(chain[j], s).None?
    ensures FirstMatch(chain, s) == Some(i)
  {
    FindIndexIs(chain, k => Matches(s, k), Some(i));
  }

  /** No two neighbouring segments are both text. */
  predicate NoAdjacentText(segs: seq<Segment>) {
    forall i :: 0 <= i < |segs| - 1 ==> !(segs[i].Text? && segs[i + 1].Text?)
  }

  /** `parseInline`: "" gives no segment; otherwise the first segmenter
      of the chain that matches splits the text and both sides are parsed
      again from the head of the chain; when none matches the whole text
      is one text segment. Every caller hands it text without line
      terminators: a line's `^ *(.+)$` capture or a trimmed table cell. */
  function ParseInline(chain: seq<Segmenter>, s: string): (r: seq<Segment>)
    requires NoLineTerminator(s)
    ensures r == [] <==> s == ""
    ensures forall i :: 0 <= i < |r| ==> WellFormed(r[i])
    ensures NoAdjacentText(r)
    decreases |s|
  {
    if s == "" then []
    else match FirstMatch(chain, s)
      case None => [Text(s)]
      case Some(i) =>
        var sp := Segment(chain[i], s).value;
        SegmentShape(chain[i], s);
        var left, right := ParseInline(chain, sp.before), ParseInline(chain, sp.after);
        SpliceKeepsShape(left, sp.segment, right);
        left + [sp.segment] + right
  }

  /** Splicing a non-text segment between two well-formed sequences keeps
      them well-formed and keeps text segments apart. */
  lemma SpliceKeepsShape(left: seq<Segment>, seg: Segment, right: seq<Segment>)
    requires forall i :: 0 <= i < |left| ==> WellFormed(left[i])
    requires forall i :: 0 <= i < |right| ==> WellFormed(right[i])
    requires NoAdjacentText(left) && NoAdjacentText(right)
    requires WellFormed(seg) && !seg.Text?
    ensures var r := left + [seg] + right;
      (forall i :: 0 <= i < |r| ==> WellFormed(r[i])) && NoAdjacentText(r)
  {
    var r := left + [seg] + right;
    forall i | 0 <= i < |r| - 1
      ensures !(r[i].Text? && r[i + 1].Text?)
    {
      if i + 1 < |left| {
        assert r[i] == left[i] && r[i + 1] == left[i + 1];
      } else if i > |left| {
        assert r[i] == right[i - |left| - 1] && r[i + 1] == right[i - |left|];
      }
    }
  }

  /** Each segment's Markdown spelling. */
  function Renders(segs: seq<Segment>): (r: seq<string>)
    ensures |r| == |segs| && forall i :: 0 <= i < |segs| ==> r[i] == Render(segs[i])
  {
    seq(|segs|, i requires 0 <= i < |segs| => Render(segs[i]))
  }

  /** Concatenated Markdown spelling of a segment sequence. */
  function Serialize(segs: seq<Segment>): string {
    Concat(Renders(segs))
  }

  lemma SerializeAppend(a: seq<Segment>, b: seq<Segment>)
    ensures Serialize(a + b) == Serialize(a) + Serialize(b)
  {
    assert Renders(a + b) == Renders(a) + Renders(b);
    ConcatAppend(Renders(a), Renders(b));
  }

  lemma SerializeOne(seg: Segment)
    ensures Serialize([seg]) == Render(seg)
  {
    var r := Render(seg);
    assert Renders([seg]) == [r];
    assert [r][1..] == [];
    assert Concat([r]) == r + Concat([]);
  }

  /** Round trip: for a chain without the `_t_` segmenter, serialising the
      segments gives back the input exactly. Nothing unmatched is lost or
      duplicated, and each piece of markup is rebuilt from its captures. */
  lemma {:induction false} RoundTrip(chain: seq<Segmenter>, s: string)
    requires NoLineTerminator(s)
    requires UnderscoreItalicSegmenter !in chain
    ensures Serialize(ParseInline(chain, s)) == s
    decreases |s|
  {
    if s == "" {
      assert Renders([]) == [];
    } else {
      match FirstMatch(chain, s)
      case None =>
        SerializeOne(Text(s));
      case Some(i) =>
        var sp := Segment(chain[i], s).value;
        SegmentShape(chain[i], s);
        RoundTrip(chain, sp.before);
        RoundTrip(chain, sp.after);
        var left, right := ParseInline(chain, sp.before), ParseInline(chain, sp.after);
        SerializeAppend(left + [sp.segment], right);
        SerializeAppend(left, [sp.segment]);
        SerializeOne(sp.segment);
        assert chain[i] != UnderscoreItalicSegmenter;
    }
  }

  /** The construct a segmenter extracts is the rightmost of its kind:
      `after` holds no further occurrence of it. */
  lemma AfterHasNoOccurrence(k: Segmenter, s: string)
    requires NoLineTerminator(s)
    requires Segment(k, s).Some?
    ensures forall p :: 0 <= p <= |Segment(k, s).value.after| ==> Lead(k, Segment(k, s).value.after[p..]).None?
  {
    var sp := Segment(k, s).value;
    var e := |s| - |sp.after|;
    assert |sp.before| < e;
    SegmentRightmost(k, s, sp);
    assert sp.after == s[e..] by {
      SegmentRebuild(k, s, sp);
    }
    forall p | 0 <= p <= |sp.after|
      ensures Lead(k, sp.after[p..]).None?
    {
      assert sp.after[p..] == s[e + p..];
    }
  }

  /** The chain never produces the empty string's segments from a
      non-empty string and vice versa, and a string no segmenter matches
      is returned verbatim as one text segment. */
  lemma Unmatched(chain: seq<Segmenter>, s: string)
    requires NoLineTerminator(s) && s != ""
    requires forall j :: 0 <= j < |chain| ==> Segment(chain[j], s).None?
    ensures ParseInline(chain, s) == [Text(s)]
  {
  }
}
