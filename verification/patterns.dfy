/** The whole-line regexes of the block readers, written as predicates.
    Each regex that the readers use twice (once in `match`, once with
    capture groups in `read`) is given once declaratively, as "some way
    of cutting the line fits the pattern", and once as the capture the
    backtracking engine returns; a contract ties the two together, so a
    reader's capture check cannot fail once its `match` succeeded.
    `.` refuses line terminators; no pattern carries a flag, so `^` and
    `$` are the ends of the line. */
module LinePatterns {
  import opened Wrappers
  import opened JsText

  predicate IsSpace(c: char) { c == ' ' }
  predicate IsHash(c: char) { c == '#' }

  predicate AllChar(s: string, lo: nat, hi: nat, c: char)
    requires lo <= hi <= |s|
  {
    forall i :: lo <= i < hi ==> s[i] == c
  }

  /** The line from `from` on can be walked by `.*`. */
  predicate DotsFrom(s: string, from: nat)
    requires from <= |s|
  {
    forall i :: from <= i < |s| ==> !IsLineTerminator(s[i])
  }

  // ---------------------------------------------------------------------
  // Heading: `^#+ +.+$` and `^(#+) +(.+)$`

  /** `#` x k, then ` ` x m, then a non-empty `.+` tail. */
  predicate HeadingCut(s: string, k: nat, m: nat) {
    1 <= k && 1 <= m && k + m < |s| && AllChar(s, 0, k, '#') && AllChar(s, k, k + m, ' ') && DotsFrom(s, k + m)
  }

  ghost predicate IsHeadingLine(s: string) {
    exists k: nat, m: nat :: HeadingCut(s, k, m)
  }

  /** The cut `^(#+) +(.+)$` settles on: the greedy ` +` takes every
      space unless that would leave `.+` nothing, in which case it hands
      the last space back. */
  function HeadingSplit(s: string): (r: Option<(nat, nat)>)
    ensures r.Some? ==> HeadingCut(s, r.value.0, r.value.1)
  {
    var k := RunLength(s, 0, IsHash);
    var m := RunLength(s, k, IsSpace);
    if k == 0 || m == 0 || !DotsFrom(s, k + m) then None
    else if k + m < |s| then Some((k, m))
    else if m >= 2 then Some((k, m - 1))
    else None
  }

  /** The capture exists exactly when the line matches `^#+ +.+$`, and it
      is the greedy one: no other cut has a longer run of spaces. */
  lemma HeadingSplitGreedy(s: string)
    ensures HeadingSplit(s).Some? <==> IsHeadingLine(s)
    ensures HeadingSplit(s).Some? ==>
      forall k: nat, m: nat :: HeadingCut(s, k, m) ==> k == HeadingSplit(s).value.0 && m <= HeadingSplit(s).value.1
  {
    var k := RunLength(s, 0, IsHash);
    var m := RunLength(s, k, IsSpace);
    forall k': nat, m': nat | HeadingCut(s, k', m') ensures k' == k && m' <= m {
      assert s[k'] == ' ';
      assert k < |s| ==> s[k] != '#';
      assert k + m < |s| ==> s[k + m] != ' ';
    }
    if IsHeadingLine(s) {
      var k': nat, m': nat :| HeadingCut(s, k', m');
      assert DotsFrom(s, k + m);
    }
  }

  /** The level and text a heading line yields. */
  function HeadingCapture(s: string): (r: Option<(nat, string)>)
    ensures r.Some? ==> r.value.0 >= 1 && r.value.1 != "" && EndsWith(s, r.value.1)
  {
    match HeadingSplit(s)
    case None => None
    case Some((k, m)) => Some((k, s[k + m..]))
  }

  // ---------------------------------------------------------------------
  // Horizontal rule: `^-{3,}$`

  predicate IsRuleLine(s: string) {
    |s| >= 3 && AllChar(s, 0, |s|, '-')
  }

  // ---------------------------------------------------------------------
  // Blockquote: `^ *> *.+$` and `^ *> *(.*)$`

  /** ` ` x a, `>`, ` ` x b, then a tail of at least `min` characters
      that `.` accepts. */
  predicate QuoteCut(s: string, a: nat, b: nat, min: nat) {
    a + 1 + b + min <= |s| && AllChar(s, 0, a, ' ') && s[a] == '>' && AllChar(s, a + 1, a + 1 + b, ' ')
    && DotsFrom(s, a + 1 + b)
  }

  ghost predicate IsQuoteLine(s: string) {
    exists a: nat, b: nat :: QuoteCut(s, a, b, 1)
  }

  ghost predicate IsQuoteRunLine(s: string) {
    exists a: nat, b: nat :: QuoteCut(s, a, b, 0)
  }

  /** The cut `^ *> *(.*)$` settles on. */
  function QuoteSplit(s: string): (r: Option<(nat, nat)>)
    ensures r.Some? ==> QuoteCut(s, r.value.0, r.value.1, 0)
  {
    var a := RunLength(s, 0, IsSpace);
    if a == |s| || s[a] != '>' then None
    else
      var b := RunLength(s, a + 1, IsSpace);
      if DotsFrom(s, a + 1 + b) then Some((a, b)) else None
  }

  /** The capture exists exactly when the line matches `^ *> *(.*)$`, and
      its ` *` after `>` is greedy. */
  lemma QuoteSplitGreedy(s: string)
    ensures QuoteSplit(s).Some? <==> IsQuoteRunLine(s)
    ensures QuoteSplit(s).Some? ==>
      forall a: nat, b: nat :: QuoteCut(s, a, b, 0) ==> a == QuoteSplit(s).value.0 && b <= QuoteSplit(s).value.1
  {
    var a := RunLength(s, 0, IsSpace);
    forall a': nat, b': nat, n: nat | QuoteCut(s, a', b', n) ensures a' == a {
      assert s[a'] == '>';
      assert a < |s| ==> s[a] != ' ';
    }
    if IsQuoteRunLine(s) {
      var a': nat, b': nat :| QuoteCut(s, a', b', 0);
      assert a' == a;
      var b := RunLength(s, a + 1, IsSpace);
      assert a + 1 + b' < |s| ==> !IsLineTerminator(s[a + 1 + b']);
      assert a + 1 + b < |s| ==> s[a + 1 + b] != ' ';
      assert DotsFrom(s, a + 1 + b);
    }
    if QuoteSplit(s).Some? {
      var b := RunLength(s, a + 1, IsSpace);
      forall a': nat, b': nat | QuoteCut(s, a', b', 0) ensures b' <= b {
        assert a' == a;
        assert a + 1 + b < |s| ==> s[a + 1 + b] != ' ';
      }
    }
  }

  /** The text a blockquote line contributes: the line after its leading
      spaces, the `>` and every space that follows it. */
  function QuoteCapture(s: string): (r: Option<string>)
    ensures r.Some? <==> QuoteSplit(s).Some?
    ensures r.Some? ==> |r.value| < |s|
  {
    match QuoteSplit(s)
    case None => None
    case Some((a, b)) => Some(s[a + 1 + b..])
  }

  /** `^ *> *.+$` as the reader tests it: the run capture exists and
      something follows the `>`. */
  predicate QuoteMatch(s: string) {
    QuoteSplit(s).Some? && QuoteSplit(s).value.0 + 1 < |s|
  }

  /** The test above is exactly the blockquote regex: when the greedy
      ` *` leaves `.+` nothing, backtracking hands it the last space. */
  lemma QuoteMatchIff(s: string)
    ensures QuoteMatch(s) <==> IsQuoteLine(s)
  {
    QuoteSplitGreedy(s);
    if QuoteMatch(s) {
      var (a, b) := QuoteSplit(s).value;
      if a + 1 + b < |s| {
        assert QuoteCut(s, a, b, 1);
      } else {
        assert s[a + b] == ' ';
        assert QuoteCut(s, a, b - 1, 1);
      }
    }
    if IsQuoteLine(s) {
      var a: nat, b: nat :| QuoteCut(s, a, b, 1);
      assert QuoteCut(s, a, b, 0);
    }
  }

  // ---------------------------------------------------------------------
  // List item: `^(?:[-+*]|\d+\.) +.+$` and `^([-+*]|\d+\.) +(.+)$`

  /** A list marker of length p: one of `-`, `+`, `*`, or digits then `.`. */
  predicate MarkerCut(s: string, p: nat) {
    p <= |s| &&
    ((p == 1 && (s[0] == '-' || s[0] == '+' || s[0] == '*'))
     || (p >= 2 && (forall i :: 0 <= i < p - 1 ==> IsDigit(s[i])) && s[p - 1] == '.'))
  }

  predicate ItemCut(s: string, p: nat, m: nat) {
    MarkerCut(s, p) && 1 <= m && p + m < |s| && AllChar(s, p, p + m, ' ') && DotsFrom(s, p + m)
  }

  ghost predicate IsListLine(s: string) {
    exists p: nat, m: nat :: ItemCut(s, p, m)
  }

  /** The marker length of a line: 1 for `-`, `+`, `*`, one more than
      the leading digits when a `.` follows them, else 0. */
  function MarkerLength(s: string): (p: nat)
    ensures p > 0 ==> MarkerCut(s, p)
    ensures forall p': nat :: MarkerCut(s, p') ==> p' == p
  {
    var d := RunLength(s, 0, IsDigit);
    var p := if |s| > 0 && (s[0] == '-' || s[0] == '+' || s[0] == '*') then 1
             else if 0 < d < |s| && s[d] == '.' then d + 1
             else 0;
    assert forall p': nat :: MarkerCut(s, p') ==> p' == p by {
      forall p': nat | MarkerCut(s, p') ensures p' == p {
        if p' >= 2 {
          assert IsDigit(s[0]);
          assert s[p' - 1] == '.';
          assert d < |s| ==> !IsDigit(s[d]);
        }
      }
    }
    p
  }

  /** The cut `^([-+*]|\d+\.) +(.+)$` settles on. */
  function ItemSplit(s: string): (r: Option<(nat, nat)>)
    ensures r.Some? ==> ItemCut(s, r.value.0, r.value.1)
  {
    var p := MarkerLength(s);
    if p == 0 then None
    else
      var m := RunLength(s, p, IsSpace);
      if m == 0 || !DotsFrom(s, p + m) then None
      else if p + m < |s| then Some((p, m))
      else if m >= 2 then Some((p, m - 1))
      else None
  }

  /** The capture exists exactly when the line matches the list pattern,
      and its ` +` is greedy. */
  lemma ItemSplitGreedy(s: string)
    ensures ItemSplit(s).Some? <==> IsListLine(s)
    ensures ItemSplit(s).Some? ==>
      forall p: nat, m: nat :: ItemCut(s, p, m) ==> p == ItemSplit(s).value.0 && m <= ItemSplit(s).value.1
  {
    var p := MarkerLength(s);
    var m := if p == 0 then 0 else RunLength(s, p, IsSpace);
    forall p': nat, m': nat | ItemCut(s, p', m') ensures p' == p && m' <= m {
      assert p' == p;
      assert p + m < |s| ==> s[p + m] != ' ';
    }
    if IsListLine(s) {
      var p': nat, m': nat :| ItemCut(s, p', m');
      assert DotsFrom(s, p + m);
    }
  }

  /** The marker and text of a list item line. */
  function ItemCapture(s: string): (r: Option<(string, string)>)
    ensures r.Some? ==> |r.value.0| >= 1 && r.value.1 != "" && |r.value.1| + 2 <= |s| && EndsWith(s, r.value.1)
  {
    match ItemSplit(s)
    case None => None
    case Some((p, m)) => Some((s[..p], s[p + m..]))
  }

  /** `^[-+*]`: whether a marker opens an unordered list. */
  predicate IsBulletMarker(marker: string) {
    |marker| > 0 && (marker[0] == '-' || marker[0] == '+' || marker[0] == '*')
  }

  // ---------------------------------------------------------------------
  // List continuation: `^( +).+$`

  predicate ContentCut(s: string, m: nat) {
    1 <= m < |s| && AllChar(s, 0, m, ' ') && DotsFrom(s, m)
  }

  /** The length of the `( +)` group of `^( +).+$`. */
  function ContentIndent(s: string): (r: Option<nat>)
    ensures r.Some? ==> ContentCut(s, r.value)
  {
    var a := RunLength(s, 0, IsSpace);
    if a == 0 || !DotsFrom(s, a) then None
    else if a < |s| then Some(a)
    else if a >= 2 then Some(a - 1)
    else None
  }

  /** The group exists exactly when the line matches `^( +).+$`, and it is
      the longest run of spaces that leaves `.+` something. */
  lemma ContentIndentGreedy(s: string)
    ensures ContentIndent(s).Some? <==> exists m: nat :: ContentCut(s, m)
    ensures ContentIndent(s).Some? ==> forall m: nat :: ContentCut(s, m) ==> m <= ContentIndent(s).value
  {
    var a := RunLength(s, 0, IsSpace);
    forall m: nat | ContentCut(s, m) ensures m <= a && DotsFrom(s, a) {
      assert a < |s| ==> s[a] != ' ';
    }
  }

  // ---------------------------------------------------------------------
  // Code fence: "^```.*$", "^```(.*)$" and "^```$"

  predicate IsFenceLine(s: string) {
    StartsWith(s, "```") && DotsFrom(s, 3)
  }

  /** The language after an opening fence; it may be "". */
  function FenceLanguage(s: string): (r: string)
    requires IsFenceLine(s)
    ensures s == "```" + r
  {
    s[3..]
  }

  // ---------------------------------------------------------------------
  // Table row: `^\|.+\|$`

  predicate IsTableLine(s: string) {
    |s| >= 3 && s[0] == '|' && s[|s| - 1] == '|' && forall i :: 1 <= i < |s| - 1 ==> !IsLineTerminator(s[i])
  }

  /** A table line is free of line terminators and has at least two `|`. */
  lemma TableLineShape(s: string)
    requires IsTableLine(s)
    ensures NoLineTerminator(s)
    ensures Count(s, '|') >= 2
  {
    CountEnds(s, '|');
  }

  /** A string that starts and ends with `c` holds at least two of it. */
  lemma CountEnds(s: string, c: char)
    requires |s| >= 2 && s[0] == c && s[|s| - 1] == c
    ensures Count(s, c) >= 2
  {
    CountLast(s[1..], c);
  }

  lemma {:induction false} CountLast(s: string, c: char)
    requires |s| >= 1 && s[|s| - 1] == c
    ensures Count(s, c) >= 1
    decreases |s|
  {
    if s[0] != c {
      CountLast(s[1..], c);
    }
  }

  // ---------------------------------------------------------------------
  // Raw HTML: `^<\w+`, `^<(\w+)` and `^</ *TAG>$`

  predicate IsHtmlOpenLine(s: string) {
    |s| >= 2 && s[0] == '<' && IsWordChar(s[1])
  }

  /** The tag `^<(\w+)` captures: the whole run of word characters. */
  function HtmlTag(s: string): (r: Option<string>)
    ensures r.Some? <==> IsHtmlOpenLine(s)
    ensures r.Some? ==> |r.value| >= 1 && 1 + |r.value| <= |s| && r.value == s[1..1 + |r.value|]
    ensures r.Some? ==> forall i :: 0 <= i < |r.value| ==> IsWordChar(r.value[i])
    ensures r.Some? && 1 + |r.value| < |s| ==> !IsWordChar(s[1 + |r.value|])
  {
    if |s| >= 1 && s[0] == '<' then
      var n := RunLength(s, 1, IsWordChar);
      if n == 0 then None else Some(s[1..1 + n])
    else None
  }

  /** `^</ *TAG>$` for a tag of word characters. */
  predicate IsCloseTag(s: string, tag: string) {
    StartsWith(s, "</") && s[2 + RunLength(s, 2, IsSpace)..] == tag + ">"
  }

  /** A closing line is exactly `</`, some spaces, the tag and `>`. */
  lemma CloseTagShape(tag: string, k: nat)
    requires |tag| >= 1 && !IsSpace(tag[0])
    ensures IsCloseTag("</" + Spaces(k) + tag + ">", tag)
  {
    var t := "</" + Spaces(k) + tag + ">";
    assert forall i :: 2 <= i < 2 + k ==> t[i] == ' ';
    assert t[2 + k] == tag[0];
    assert RunLength(t, 2, IsSpace) == k;
    assert t[2 + k..] == tag + ">";
  }

  function Spaces(k: nat): (r: string)
    ensures |r| == k && forall i :: 0 <= i < k ==> r[i] == ' '
  {
    if k == 0 then "" else " " + Spaces(k - 1)
  }

  // ---------------------------------------------------------------------
  // Paragraph line: `^ *.+$` and `^ *(.+)$`

  predicate InlineCut(s: string, a: nat) {
    a < |s| && AllChar(s, 0, a, ' ') && DotsFrom(s, a)
  }

  ghost predicate IsInlineLine(s: string) {
    exists a: nat :: InlineCut(s, a)
  }

  /** Where `^ *(.+)$` starts its group. */
  function InlineSplit(s: string): (r: Option<nat>)
    ensures r.Some? ==> InlineCut(s, r.value)
  {
    var a := RunLength(s, 0, IsSpace);
    if !DotsFrom(s, a) then None
    else if a < |s| then Some(a)
    else if a >= 1 then Some(a - 1)
    else None
  }

  /** The group exists exactly when the line matches `^ *.+$`, and its
      ` *` is greedy. */
  lemma InlineSplitGreedy(s: string)
    ensures InlineSplit(s).Some? <==> IsInlineLine(s)
    ensures InlineSplit(s).Some? ==> forall a: nat :: InlineCut(s, a) ==> a <= InlineSplit(s).value
  {
    var a := RunLength(s, 0, IsSpace);
    forall a': nat | InlineCut(s, a') ensures a' <= a && DotsFrom(s, a) {
      assert a < |s| ==> s[a] != ' ';
    }
  }

  /** The text a paragraph line contributes: the line without its leading
      spaces, or its last space when it is all spaces. */
  function InlineCapture(s: string): (r: Option<string>)
    ensures r.Some? ==> r.value != "" && EndsWith(s, r.value) && NoLineTerminator(r.value)
  {
    match InlineSplit(s)
    case None => None
    case Some(a) => Some(s[a..])
  }

  /** A paragraph line is exactly a non-empty line without line
      terminators. */
  lemma InlineLineIff(s: string)
    ensures IsInlineLine(s) <==> s != "" && NoLineTerminator(s)
  {
    if s != "" && NoLineTerminator(s) {
      assert InlineCut(s, 0);
    }
  }
}
