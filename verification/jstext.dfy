/** The few JavaScript string primitives the parser relies on, over
    `string` = `seq<char>`: the character classes behind `.`, `\s`, `\w`
    and `\d`, `String.prototype.trim`, `split` with a one-character
    separator and `Array.prototype.join`. */
module JsText {

  /** ECMAScript LineTerminator: the characters a regex `.` refuses. */
  predicate IsLineTerminator(c: char) {
    c == '\n' || c == '\r' || c == '\U{2028}' || c == '\U{2029}'
  }

  /** A string every regex `.` step can walk over. */
  predicate NoLineTerminator(s: string) {
    forall i :: 0 <= i < |s| ==> !IsLineTerminator(s[i])
  }

  /** ECMAScript WhiteSpace or LineTerminator: the class `\s` and the
      characters `trim` removes. */
  predicate IsWhiteSpace(c: char) {
    || c == '\t' || c == '\U{000B}' || c == '\U{000C}' || c == ' '
    || c == '\U{00A0}' || c == '\U{FEFF}' || c == '\U{1680}'
    || ('\U{2000}' <= c <= '\U{200A}')
    || c == '\U{202F}' || c == '\U{205F}' || c == '\U{3000}'
    || IsLineTerminator(c)
  }

  /** The ASCII class `\d`. */
  predicate IsDigit(c: char) {
    '0' <= c <= '9'
  }

  /** The ASCII class `\w`. */
  predicate IsWordChar(c: char) {
    ('a' <= c <= 'z') || ('A' <= c <= 'Z') || IsDigit(c) || c == '_'
  }

  /** Length of the longest run of characters satisfying `p` that starts
      at index `from`: the extent of a greedy `p*` there. */
  function RunLength(s: string, from: nat, p: char -> bool): (n: nat)
    requires from <= |s|
    ensures from + n <= |s|
    ensures forall i :: from <= i < from + n ==> p(s[i])
    ensures from + n < |s| ==> !p(s[from + n])
    decreases |s| - from
  {
    if from == |s| || !p(s[from]) then 0 else 1 + RunLength(s, from + 1, p)
  }

  /** Index of the first `c` at or after `from`, or `|s|` when there is none. */
  function FindChar(s: string, from: nat, c: char): (j: nat)
    requires from <= |s|
    ensures from <= j <= |s|
    ensures forall i :: from <= i < j ==> s[i] != c
    ensures j < |s| ==> s[j] == c
    decreases |s| - from
  {
    if from == |s| || s[from] == c then from else FindChar(s, from + 1, c)
  }

  /** Number of occurrences of `c` in `s`. */
  function Count(s: string, c: char): nat
    decreases |s|
  {
    if |s| == 0 then 0 else (if s[0] == c then 1 else 0) + Count(s[1..], c)
  }

  predicate StartsWith(s: string, prefix: string) {
    |prefix| <= |s| && s[..|prefix|] == prefix
  }

  predicate EndsWith(s: string, suffix: string) {
    |suffix| <= |s| && s[|s| - |suffix|..] == suffix
  }

  /** `String.prototype.trimStart`. */
  function TrimStart(s: string): (r: string)
    ensures |r| <= |s| && r == s[|s| - |r|..]
    ensures forall i :: 0 <= i < |s| - |r| ==> IsWhiteSpace(s[i])
    ensures |r| > 0 ==> !IsWhiteSpace(r[0])
    decreases |s|
  {
    if |s| > 0 && IsWhiteSpace(s[0]) then TrimStart(s[1..]) else s
  }

  /** `String.prototype.trimEnd`. */
  function TrimEnd(s: string): (r: string)
    ensures |r| <= |s| && r == s[..|r|]
    ensures forall i :: |r| <= i < |s| ==> IsWhiteSpace(s[i])
    ensures |r| > 0 ==> !IsWhiteSpace(r[|r| - 1])
    decreases |s|
  {
    if |s| > 0 && IsWhiteSpace(s[|s| - 1]) then TrimEnd(s[..|s| - 1]) else s
  }

  /** `String.prototype.trim`: the longest infix without white space at
      either end. */
  function Trim(s: string): (r: string)
    ensures |r| <= |s|
    ensures |r| > 0 ==> !IsWhiteSpace(r[0]) && !IsWhiteSpace(r[|r| - 1])
    ensures NoLineTerminator(s) ==> NoLineTerminator(r)
    ensures exists a :: TrimmedAt(s, r, a)
  {
    var t := TrimStart(s);
    var r := TrimEnd(t);
    TrimSlice(s, t, r);
    TrimmedSlice(s, t, r);
    r
  }

  /** `r` is `s[a..a + |r|]` and everything of `s` around it is white
      space. */
  predicate TrimmedAt(s: string, r: string, a: nat) {
    && a + |r| <= |s|
    && r == s[a..a + |r|]
    && (forall i :: 0 <= i < a ==> IsWhiteSpace(s[i]))
    && (forall i :: a + |r| <= i < |s| ==> IsWhiteSpace(s[i]))
  }

  /** Trimming removes only white space, from the two ends. */
  lemma TrimmedSlice(s: string, t: string, r: string)
    requires |t| <= |s| && t == s[|s| - |t|..]
    requires forall i :: 0 <= i < |s| - |t| ==> IsWhiteSpace(s[i])
    requires |r| <= |t| && r == t[..|r|]
    requires forall i :: |r| <= i < |t| ==> IsWhiteSpace(t[i])
    ensures TrimmedAt(s, r, |s| - |t|)
  {
    var a := |s| - |t|;
    assert t == s[a..];
    assert r == t[..|r|] == s[a..a + |r|];
    forall i | a + |r| <= i < |s| ensures IsWhiteSpace(s[i]) {
      assert s[i] == t[i - a];
    }
  }

  /** The trimmed text is a slice of the text. */
  lemma TrimSlice(s: string, t: string, r: string)
    requires t == TrimStart(s) && r == TrimEnd(t)
    ensures |r| > 0 ==> r[0] == t[0]
    ensures NoLineTerminator(s) ==> NoLineTerminator(r)
  {
    var a := |s| - |t|;
    assert t == s[a..];
    assert r == t[..|r|];
    if NoLineTerminator(s) {
      forall i | 0 <= i < |r| ensures !IsLineTerminator(r[i]) {
        assert r[i] == t[i] == s[a + i];
      }
    }
  }

  /** `s.split(sep)` for a one-character separator: the pieces between
      consecutive separators, so that there is one more piece than there
      are separators. */
  function Split(s: string, sep: char): (parts: seq<string>)
    ensures |parts| == Count(s, sep) + 1
    ensures forall k, i :: 0 <= k < |parts| && 0 <= i < |parts[k]| ==> parts[k][i] != sep
    decreases |s|
  {
    if |s| == 0 then [""]
    else
      var rest := Split(s[1..], sep);
      if s[0] == sep then [""] + rest
      else [[s[0]] + rest[0]] + rest[1..]
  }

  /** `parts.join(sep)`; the empty array joins to "". */
  function Join(parts: seq<string>, sep: string): string
    decreases |parts|
  {
    if |parts| == 0 then ""
    else if |parts| == 1 then parts[0]
    else parts[0] + sep + Join(parts[1..], sep)
  }

  /** `parts.join("")`: the strings one after the other. */
  function Concat(parts: seq<string>): string
    decreases |parts|
  {
    if |parts| == 0 then "" else parts[0] + Concat(parts[1..])
  }

  lemma {:induction false} ConcatAppend(a: seq<string>, b: seq<string>)
    ensures Concat(a + b) == Concat(a) + Concat(b)
    decreases |a|
  {
    if |a| == 0 {
      assert a + b == b;
    } else {
      assert (a + b)[0] == a[0] && (a + b)[1..] == a[1..] + b;
      ConcatAppend(a[1..], b);
    }
  }

  /** Joining two non-empty lists is joining each and putting the
      separator between. */
  lemma {:induction false} JoinAppend(a: seq<string>, b: seq<string>, sep: string)
    requires |a| >= 1 && |b| >= 1
    ensures Join(a + b, sep) == Join(a, sep) + sep + Join(b, sep)
    decreases |a|
  {
    if |a| == 1 {
      assert (a + b)[1..] == b;
    } else {
      JoinAppend(a[1..], b, sep);
      assert (a + b)[1..] == a[1..] + b;
    }
  }

  /** Joining the pieces of a split with the separator gives back the
      string. */
  lemma {:induction false} JoinSplit(s: string, sep: char)
    ensures Join(Split(s, sep), [sep]) == s
    decreases |s|
  {
    if |s| > 0 {
      var rest := Split(s[1..], sep);
      JoinSplit(s[1..], sep);
      if s[0] == sep {
        assert Split(s, sep) == [""] + rest;
        assert Join([""] + rest, [sep]) == "" + [sep] + Join(rest, [sep]);
        assert s == [s[0]] + s[1..];
      } else {
        var parts := Split(s, sep);
        assert parts == [[s[0]] + rest[0]] + rest[1..];
        if |rest| == 1 {
          assert Join(parts, [sep]) == [s[0]] + rest[0];
        } else {
          assert Join(rest, [sep]) == rest[0] + [sep] + Join(rest[1..], [sep]);
          assert Join(parts, [sep]) == [s[0]] + rest[0] + [sep] + Join(rest[1..], [sep]);
        }
        assert s == [s[0]] + s[1..];
      }
    }
  }

  /** Splitting a join of separator-free pieces gives back the pieces. */
  lemma {:induction false} SplitJoin(parts: seq<string>, sep: char)
    requires |parts| >= 1
    requires forall k, i :: 0 <= k < |parts| && 0 <= i < |parts[k]| ==> parts[k][i] != sep
    ensures Split(Join(parts, [sep]), sep) == parts
    decreases |parts|, |parts[0]|, 1
  {
    if |parts| == 1 {
      SplitPlain(parts[0], sep);
    } else if |parts[0]| == 0 {
      SplitJoinEmptyHead(parts, sep);
    } else {
      SplitJoinHead(parts, sep);
    }
  }

  /** `SplitJoin` when the first piece is empty: the join starts with the
      separator. */
  lemma {:induction false} SplitJoinEmptyHead(parts: seq<string>, sep: char)
    requires |parts| >= 2 && parts[0] == ""
    requires forall k, i :: 0 <= k < |parts| && 0 <= i < |parts[k]| ==> parts[k][i] != sep
    ensures Split(Join(parts, [sep]), sep) == parts
    decreases |parts|, 0, 0
  {
    var tail := Join(parts[1..], [sep]);
    var whole := Join(parts, [sep]);
    assert whole == [sep] + tail;
    assert whole[1..] == tail;
    SplitJoin(parts[1..], sep);
    assert parts == [""] + parts[1..];
  }

  /** `SplitJoin` when the first piece is not empty: the join starts with
      its first character. */
  lemma {:induction false} SplitJoinHead(parts: seq<string>, sep: char)
    requires |parts| >= 2 && |parts[0]| >= 1
    requires forall k, i :: 0 <= k < |parts| && 0 <= i < |parts[k]| ==> parts[k][i] != sep
    ensures Split(Join(parts, [sep]), sep) == parts
    decreases |parts|, |parts[0]|, 0
  {
    var tail := Join(parts[1..], [sep]);
    var whole := Join(parts, [sep]);
    var shorter := [parts[0][1..]] + parts[1..];
    assert shorter[1..] == parts[1..];
    assert Join(shorter, [sep]) == parts[0][1..] + [sep] + tail;
    assert whole[1..] == Join(shorter, [sep]);
    SplitJoin(shorter, sep);
    assert whole[0] == parts[0][0];
    assert parts[0] == [parts[0][0]] + parts[0][1..];
  }

  /** The first piece of a split is everything before the first
      separator. */
  lemma {:induction false} SplitFirst(a: string, b: string, sep: char)
    requires forall i :: 0 <= i < |a| ==> a[i] != sep
    ensures Split(a + [sep] + b, sep)[0] == a
    decreases |a|
  {
    var s := a + [sep] + b;
    if |a| == 0 {
      assert s[0] == sep;
    } else {
      assert s[1..] == a[1..] + [sep] + b;
      SplitFirst(a[1..], b, sep);
      assert s[0] == a[0];
      assert a == [a[0]] + a[1..];
    }
  }

  /** A string without the separator splits into itself. */
  lemma {:induction false} SplitPlain(s: string, sep: char)
    requires forall i :: 0 <= i < |s| ==> s[i] != sep
    ensures Split(s, sep) == [s]
    decreases |s|
  {
    if |s| > 0 {
      SplitPlain(s[1..], sep);
      assert s == [s[0]] + s[1..];
    }
  }

  /** Every piece of a split is built from characters of the string, so a
      string without line terminators splits into pieces without them. */
  lemma {:induction false} SplitNoLineTerminator(s: string, sep: char)
    requires NoLineTerminator(s)
    ensures forall k :: 0 <= k < |Split(s, sep)| ==> NoLineTerminator(Split(s, sep)[k])
    decreases |s|
  {
    if |s| > 0 {
      SplitNoLineTerminator(s[1..], sep);
      var rest := Split(s[1..], sep);
      if s[0] != sep {
        var head := [s[0]] + rest[0];
        assert NoLineTerminator(rest[0]);
        assert forall i :: 0 < i < |head| ==> head[i] == rest[0][i - 1];
      }
    }
  }
}
