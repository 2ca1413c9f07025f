/** The JavaScript string operations the source relies on (`split`, `join`,
    `trim`, `startsWith`, `endsWith`, `includes`, the comment-stripping regular
    expression and the default `sort`), over Dafny strings. */
module Strings {

  /** The number a string of decimal digits denotes, most significant digit first. */
  function DigitsValue(s: string): int {
    if s == [] then 0 else 10 * DigitsValue(s[..|s| - 1]) + (s[|s| - 1] as int - '0' as int)
  }

  /** The decimal digits of `n`, as a template literal prints a number:
      they denote `n`, with no leading zero. */
  function Decimal(n: nat): (r: string)
    ensures |r| >= 1 && forall i :: 0 <= i < |r| ==> '0' <= r[i] <= '9'
    ensures DigitsValue(r) == n
    ensures n > 0 ==> r[0] != '0'
  {
    if n < 10 then
      var r := [('0' as int + n) as char];
      assert r[..0] == [];
      r
    else
      var p := Decimal(n / 10);
      var r := p + [('0' as int + n % 10) as char];
      assert r[..|r| - 1] == p;
      r
  }

  predicate StartsWith(s: string, prefix: string) {
    |prefix| <= |s| && s[..|prefix|] == prefix
  }

  predicate EndsWith(s: string, suffix: string) {
    |suffix| <= |s| && s[|s| - |suffix|..] == suffix
  }

  /** Index of the first occurrence of `c` in `s`. */
  function IndexOf(s: string, c: char): (i: nat)
    requires c in s
    ensures i < |s| && s[i] == c && c !in s[..i]
  {
    if s[0] == c then 0 else 1 + IndexOf(s[1..], c)
  }

  /** `parts.join(sep)`. */
  function Join(parts: seq<string>, sep: string): string {
    if |parts| == 0 then ""
    else if |parts| == 1 then parts[0]
    else parts[0] + sep + Join(parts[1..], sep)
  }

  /** `s.split(c)` for a one-character separator: never empty, no part holds
      the separator, and joining the parts back gives `s`. */
  function Split(s: string, c: char): (parts: seq<string>)
    ensures |parts| >= 1
    ensures forall i :: 0 <= i < |parts| ==> c !in parts[i]
    ensures Join(parts, [c]) == s
    decreases |s|
  {
    if c !in s then [s]
    else
      var i := IndexOf(s, c);
      var rest := Split(s[i + 1..], c);
      assert s == s[..i] + [c] + s[i + 1..];
      [s[..i]] + rest
  }

  /** `Split` inverts `Join` on parts that do not contain the separator. */
  lemma {:induction false} SplitJoin(parts: seq<string>, c: char)
    requires |parts| >= 1
    requires forall i :: 0 <= i < |parts| ==> c !in parts[i]
    ensures Split(Join(parts, [c]), c) == parts
    decreases |parts|
  {
    if |parts| > 1 {
      var s := Join(parts, [c]);
      var tail := Join(parts[1..], [c]);
      assert s == parts[0] + [c] + tail;
      assert s[|parts[0]|] == c;
      assert s[..|parts[0]|] == parts[0];
      assert forall k :: 0 <= k < |parts[0]| ==> s[k] == parts[0][k];
      assert IndexOf(s, c) == |parts[0]|;
      assert s[|parts[0]| + 1..] == tail;
      SplitJoin(parts[1..], c);
    }
  }

  /** `path.split(c).pop()`: the text after the last separator. */
  function LastSegment(s: string, c: char): (r: string)
    ensures EndsWith(s, r) && c !in r
    ensures c in s ==> |r| < |s| && s[|s| - |r| - 1] == c
    ensures c !in s ==> r == s
  {
    var parts := Split(s, c);
    JoinLastPart(parts, c);
    assert |parts| == 1 ==> s == parts[0];
    parts[|parts| - 1]
  }

  /** A joined text ends with its last part, right after a separator when
      there are several parts. */
  lemma {:induction false} JoinLastPart(parts: seq<string>, c: char)
    requires |parts| >= 1
    ensures var j, r := Join(parts, [c]), parts[|parts| - 1];
      EndsWith(j, r) && (|parts| > 1 ==> |r| < |j| && j[|j| - |r| - 1] == c)
  {
    var r := parts[|parts| - 1];
    if |parts| > 1 {
      var tail := Join(parts[1..], [c]);
      JoinLastPart(parts[1..], c);
      var j := Join(parts, [c]);
      assert j == (parts[0] + [c]) + tail;
      assert j[|j| - |tail|..] == tail;
      assert j[|j| - |r|..] == tail[|tail| - |r|..];
      if |parts| > 2 {
        assert j[|j| - |r| - 1] == tail[|tail| - |r| - 1];
      } else {
        assert tail == r;
      }
    } else {
      assert Join(parts, [c])[0..] == r;
    }
  }

  /** `s.split(c)[0]`: the text before the first separator. */
  function FirstSegment(s: string, c: char): (r: string)
    ensures c !in r
    ensures c in s ==> r == s[..IndexOf(s, c)]
    ensures c !in s ==> r == s
  {
    Split(s, c)[0]
  }

  /** The characters `String.prototype.trim` removes: white space and line terminators. */
  predicate IsJsWhiteSpace(ch: char) {
    ch == ' ' || ch == '\t' || ch == '\n' || ch == '\r' || ch == '\U{000B}' || ch == '\U{000C}'
    || ch == '\U{00A0}' || ch == '\U{1680}' || ('\U{2000}' <= ch <= '\U{200A}')
    || ch == '\U{2028}' || ch == '\U{2029}' || ch == '\U{202F}' || ch == '\U{205F}'
    || ch == '\U{3000}' || ch == '\U{FEFF}'
  }

  function TrimStart(s: string): (r: string)
    ensures |r| <= |s| && r == s[|s| - |r|..]
    ensures forall i :: 0 <= i < |s| - |r| ==> IsJsWhiteSpace(s[i])
    ensures r != [] ==> !IsJsWhiteSpace(r[0])
  {
    if s != [] && IsJsWhiteSpace(s[0]) then TrimStart(s[1..]) else s
  }

  function TrimEnd(s: string): (r: string)
    ensures |r| <= |s| && r == s[..|r|]
    ensures forall i :: |r| <= i < |s| ==> IsJsWhiteSpace(s[i])
    ensures r != [] ==> !IsJsWhiteSpace(r[|r| - 1])
  {
    if s != [] && IsJsWhiteSpace(s[|s| - 1]) then TrimEnd(s[..|s| - 1]) else s
  }

  predicate AllWhiteSpace(s: string) {
    forall k :: 0 <= k < |s| ==> IsJsWhiteSpace(s[k])
  }

  /** `r` is the slice `s[a..b]`, and only white space lies outside it. */
  predicate TrimmedAt(s: string, r: string, a: int, b: int) {
    0 <= a <= b <= |s| && r == s[a..b] && AllWhiteSpace(s[..a]) && AllWhiteSpace(s[b..])
  }

  /** `s.trim()`: what is left of `s` when leading and trailing white space
      is removed. The result is a slice of `s` with only white space around
      it, and it neither starts nor ends with white space, so no longer
      slice would do. */
  function Trim(s: string): (r: string)
    ensures |r| <= |s|
    ensures exists a, b :: TrimmedAt(s, r, a, b)
    ensures r != [] ==> !IsJsWhiteSpace(r[0]) && !IsJsWhiteSpace(r[|r| - 1])
    ensures AllWhiteSpace(s) <==> r == []
  {
    TrimFacts(s);
    var t := TrimStart(s);
    var r := TrimEnd(t);
    TrimSlice(s, t, r);
    r
  }

  /** `r`, a prefix of the suffix `t` of `s`, is a slice of `s` with only
      white space around it when only white space precedes `t` and follows `r`. */
  lemma TrimSlice(s: string, t: string, r: string)
    requires |t| <= |s| && t == s[|s| - |t|..]
    requires forall i :: 0 <= i < |s| - |t| ==> IsJsWhiteSpace(s[i])
    requires |r| <= |t| && r == t[..|r|]
    requires forall i :: |r| <= i < |t| ==> IsJsWhiteSpace(t[i])
    ensures TrimmedAt(s, r, |s| - |t|, |s| - |t| + |r|)
  {
    var a := |s| - |t|;
    SliceOfSuffix(s, t, r);
    LeadingWhiteSpace(s, a);
    WhiteSpaceTail(s, t, a, |r|);
  }

  lemma SliceOfSuffix(s: string, t: string, r: string)
    requires |t| <= |s| && t == s[|s| - |t|..]
    requires |r| <= |t| && r == t[..|r|]
    ensures r == s[|s| - |t|..|s| - |t| + |r|]
  {
  }

  /** Only white space precedes position `a` of `s`. */
  lemma LeadingWhiteSpace(s: string, a: nat)
    requires a <= |s|
    requires forall i :: 0 <= i < a ==> IsJsWhiteSpace(s[i])
    ensures AllWhiteSpace(s[..a])
  {
    forall k | 0 <= k < a
      ensures IsJsWhiteSpace(s[..a][k])
    {
      assert s[..a][k] == s[k];
    }
  }

  /** Only white space follows position `m` of the suffix `t = s[a..]`. */
  lemma WhiteSpaceTail(s: string, t: string, a: nat, m: nat)
    requires a + |t| == |s| && t == s[a..] && m <= |t|
    requires forall i :: m <= i < |t| ==> IsJsWhiteSpace(t[i])
    ensures AllWhiteSpace(s[a + m..])
  {
    var tail := s[a + m..];
    forall k | 0 <= k < |tail|
      ensures IsJsWhiteSpace(tail[k])
    {
      assert tail[k] == t[m + k];
    }
  }

  lemma TrimFacts(s: string)
    ensures var t := TrimStart(s); var r := TrimEnd(t);
      && (AllWhiteSpace(s) <==> r == [])
  {
    var t := TrimStart(s);
    var r := TrimEnd(t);
    if r == [] {
      assert t == [];
    } else {
      assert s[|s| - |t|] == r[0];
    }
  }

  /** The line terminators, which `.` in a regular expression does not match. */
  predicate IsLineTerminator(ch: char) {
    ch == '\n' || ch == '\r' || ch == '\U{2028}' || ch == '\U{2029}'
  }

  function DropToLineTerminator(s: string): (r: string)
    ensures |r| <= |s| && r == s[|s| - |r|..]
    ensures r != [] ==> IsLineTerminator(r[0])
  {
    if s == [] || IsLineTerminator(s[0]) then s else DropToLineTerminator(s[1..])
  }

  predicate SingleLine(s: string) {
    forall k :: 0 <= k < |s| ==> !IsLineTerminator(s[k])
  }

  /** `s.replace` with the global pattern `#.*`: every `#` and the rest of its
      line are removed; on one line, what is left is the text before the first `#`. */
  function StripComments(s: string): (r: string)
    ensures '#' !in r
    ensures |r| <= |s|
    ensures '#' !in s ==> r == s
    ensures SingleLine(s) && '#' in s ==> r == s[..IndexOf(s, '#')]
  {
    if s == [] then []
    else if s[0] == '#' then
      var rest := DropToLineTerminator(s[1..]);
      assert SingleLine(s) ==> SingleLine(s[1..]);
      StripComments(rest)
    else
      var r := [s[0]] + StripComments(s[1..]);
      assert SingleLine(s) && '#' in s ==> r == s[..IndexOf(s, '#')] by {
        if SingleLine(s) && '#' in s {
          assert '#' in s[1..];
          assert IndexOf(s, '#') == 1 + IndexOf(s[1..], '#');
          assert s[..IndexOf(s, '#')] == [s[0]] + s[1..][..IndexOf(s[1..], '#')];
        }
      }
      r
  }

  /** `words.filter((word) => word)`: the non-empty strings, in order. */
  function NonEmpty(words: seq<string>): (r: seq<string>)
    ensures |r| <= |words|
    ensures forall i :: 0 <= i < |r| ==> r[i] != [] && r[i] in words
    ensures forall w :: w in words && w != [] ==> w in r
    ensures (forall w :: w in words ==> w != []) ==> r == words
  {
    if words == [] then []
    else if words[0] == [] then assert words[0] in words; NonEmpty(words[1..])
    else
      assert words == [words[0]] + words[1..];
      assert forall w :: w in words[1..] ==> w in words;
      [words[0]] + NonEmpty(words[1..])
  }

  /** Filtering distributes over concatenation, so order and repeats are kept. */
  lemma {:induction false} NonEmptyAppend(a: seq<string>, b: seq<string>)
    ensures NonEmpty(a + b) == NonEmpty(a) + NonEmpty(b)
  {
    if a == [] {
      assert a + b == b;
    } else {
      assert (a + b)[0] == a[0] && (a + b)[1..] == a[1..] + b;
      NonEmptyAppend(a[1..], b);
      if a[0] != [] {
        assert NonEmpty(a) + NonEmpty(b) == [a[0]] + (NonEmpty(a[1..]) + NonEmpty(b));
      }
    }
  }

  // ----- ordering, for `Array.prototype.sort` on strings -----

  /** Lexicographic order on strings, character by character. */
  predicate LessEq(a: string, b: string)
    decreases |a|
  {
    a == [] || (b != [] && (a[0] < b[0] || (a[0] == b[0] && LessEq(a[1..], b[1..]))))
  }

  lemma {:induction false} LessEqTotal(a: string, b: string)
    ensures LessEq(a, b) || LessEq(b, a)
    decreases |a|
  {
    if a != [] && b != [] && a[0] == b[0] {
      LessEqTotal(a[1..], b[1..]);
    }
  }

  lemma {:induction false} LessEqTransitive(a: string, b: string, c: string)
    requires LessEq(a, b) && LessEq(b, c)
    ensures LessEq(a, c)
    decreases |a|
  {
    if a != [] && a[0] == b[0] && b[0] == c[0] {
      LessEqTransitive(a[1..], b[1..], c[1..]);
    }
  }

  lemma {:induction false} LessEqAntisymmetric(a: string, b: string)
    requires LessEq(a, b) && LessEq(b, a)
    ensures a == b
    decreases |a|
  {
    if a != [] {
      LessEqAntisymmetric(a[1..], b[1..]);
      assert a == [a[0]] + a[1..] && b == [b[0]] + b[1..];
    }
  }

  predicate Sorted(s: seq<string>) {
    forall i, j :: 0 <= i < j < |s| ==> LessEq(s[i], s[j])
  }

  function Insert(x: string, s: seq<string>): (r: seq<string>)
    ensures multiset(r) == multiset(s) + multiset{x}
  {
    if s == [] then [x]
    else if LessEq(x, s[0]) then [x] + s
    else
      assert s == [s[0]] + s[1..];
      [s[0]] + Insert(x, s[1..])
  }

  /** Insertion into a sorted list keeps it sorted. */
  lemma {:induction false} InsertSorted(x: string, s: seq<string>)
    requires Sorted(s)
    ensures Sorted(Insert(x, s))
  {
    if s == [] {
    } else if LessEq(x, s[0]) {
      forall i, j | 0 <= i < j < |s| + 1 ensures LessEq(([x] + s)[i], ([x] + s)[j]) {
        if i == 0 && j > 1 { LessEqTransitive(x, s[0], s[j - 1]); }
      }
    } else {
      var t := Insert(x, s[1..]);
      InsertSorted(x, s[1..]);
      HeadBelowInsert(x, s);
      forall i, j | 0 <= i < j < |t| + 1 ensures LessEq(([s[0]] + t)[i], ([s[0]] + t)[j]) {
        if i > 0 { assert ([s[0]] + t)[i] == t[i - 1] && ([s[0]] + t)[j] == t[j - 1]; }
      }
    }
  }

  /** The head of a sorted list that `x` does not precede precedes every
      element of the rest with `x` inserted. */
  lemma HeadBelowInsert(x: string, s: seq<string>)
    requires Sorted(s) && s != [] && !LessEq(x, s[0])
    ensures forall k :: 0 <= k < |Insert(x, s[1..])| ==> LessEq(s[0], Insert(x, s[1..])[k])
  {
    var t := Insert(x, s[1..]);
    LessEqTotal(x, s[0]);
    forall k | 0 <= k < |t| ensures LessEq(s[0], t[k]) {
      assert t[k] in multiset(t);
      if t[k] != x {
        assert t[k] in multiset(s[1..]);
        var m :| 0 <= m < |s[1..]| && s[1..][m] == t[k];
        assert s[m + 1] == t[k];
      }
    }
  }

  /** The default `sort()` of an array of strings, as an insertion sort. */
  function Sort(s: seq<string>): (r: seq<string>)
    ensures Sorted(r)
    ensures multiset(r) == multiset(s)
  {
    if s == [] then []
    else
      assert s == [s[0]] + s[1..];
      var rest := Sort(s[1..]);
      InsertSorted(s[0], rest);
      Insert(s[0], rest)
  }
}
