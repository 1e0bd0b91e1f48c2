/**
 * The few string operations of Python's `str` that the apt task bodies rely
 * on: `strip()`, `split(sep)`, `startswith`, `in`, `lower()` and
 * `replace`. Whitespace is what `str.isspace` accepts, which is also what the
 * regular-expression classes `\s` and `\S` use for text patterns.
 */
module Text {

  predicate IsSpace(c: char) {
    var n := c as int;
    || (9 <= n <= 13) || (28 <= n <= 32) || n == 0x85 || n == 0xA0 || n == 0x1680
    || (0x2000 <= n <= 0x200A) || n == 0x2028 || n == 0x2029 || n == 0x202F || n == 0x205F || n == 0x3000
  }

  predicate NoSpace(s: string) {
    forall k :: 0 <= k < |s| ==> !IsSpace(s[k])
  }

  predicate AllSpace(s: string) {
    forall k :: 0 <= k < |s| ==> IsSpace(s[k])
  }

  /** Neither end of `s` is whitespace. */
  predicate Trimmed(s: string) {
    s == [] || (!IsSpace(s[0]) && !IsSpace(s[|s| - 1]))
  }

  /** The end of the whitespace run that starts at `i`. */
  function SpanSpace(s: string, i: nat): (j: nat)
    requires i <= |s|
    ensures i <= j <= |s|
    ensures forall k :: i <= k < j ==> IsSpace(s[k])
    ensures j == |s| || !IsSpace(s[j])
    decreases |s| - i
  {
    if i == |s| || !IsSpace(s[i]) then i else SpanSpace(s, i + 1)
  }

  /** The end of the run of non-whitespace that starts at `i`. */
  function SpanNonSpace(s: string, i: nat): (j: nat)
    requires i <= |s|
    ensures i <= j <= |s|
    ensures forall k :: i <= k < j ==> !IsSpace(s[k])
    ensures j == |s| || IsSpace(s[j])
    decreases |s| - i
  {
    if i == |s| || IsSpace(s[i]) then i else SpanNonSpace(s, i + 1)
  }

  /** The start of the whitespace run that ends just before `j`. */
  function SpaceBefore(s: string, j: nat): (k: nat)
    requires j <= |s|
    ensures k <= j
    ensures forall m :: k <= m < j ==> IsSpace(s[m])
    ensures k == 0 || !IsSpace(s[k - 1])
    decreases j
  {
    if j == 0 || !IsSpace(s[j - 1]) then j else SpaceBefore(s, j - 1)
  }

  /** `s` is `r` with only whitespace before it, from index `i`, and only whitespace after it. */
  predicate Surrounds(s: string, r: string, i: int) {
    0 <= i && i + |r| <= |s| && s[i..i + |r|] == r && AllSpace(s[..i]) && AllSpace(s[i + |r|..])
  }

  /** `s.strip()`: whitespace removed from both ends, nothing else touched. */
  function Strip(s: string): (r: string)
    ensures Trimmed(r)
    ensures exists i :: Surrounds(s, r, i)
  {
    var i := SpanSpace(s, 0);
    var j := SpaceBefore(s, |s|);
    if j <= i then
      assert forall k :: 0 <= k < |s| ==> IsSpace(s[k]);
      assert Surrounds(s, [], 0);
      []
    else
      assert Surrounds(s, s[i..j], i);
      s[i..j]
  }

  /** Stripping text whose ends are not whitespace changes nothing. */
  lemma StripTrimmed(s: string)
    requires Trimmed(s)
    ensures Strip(s) == s
  {
    if s != [] {
      assert SpanSpace(s, 0) == 0;
      assert SpaceBefore(s, |s|) == |s|;
    }
  }

  /** `strip()` is idempotent: the output of a stripped command strips to itself. */
  lemma StripIdempotent(s: string)
    ensures Strip(Strip(s)) == Strip(s)
  {
    StripTrimmed(Strip(s));
  }

  predicate StartsWith(s: string, prefix: string) {
    |prefix| <= |s| && s[..|prefix|] == prefix
  }

  /** Python's `needle in s` for strings. */
  predicate Contains(s: string, needle: string) {
    exists i :: 0 <= i <= |s| && OccursAt(s, needle, i)
  }

  predicate OccursAt(s: string, needle: string, i: int) {
    0 <= i && i + |needle| <= |s| && s[i..i + |needle|] == needle
  }

  /** Lower-case of a character, for the ASCII letters. */
  function LowerChar(c: char): (d: char)
    ensures 'A' <= c <= 'Z' ==> 'a' <= d <= 'z' && d as int == c as int + 32
    ensures !('A' <= c <= 'Z') ==> d == c
  {
    if 'A' <= c <= 'Z' then (c as int + 32) as char else c
  }

  function Lower(s: string): (r: string)
    ensures |r| == |s| && forall k :: 0 <= k < |s| ==> r[k] == LowerChar(s[k])
  {
    seq(|s|, k requires 0 <= k < |s| => LowerChar(s[k]))
  }

  /** `s.replace(from, to)` for one character by another. */
  function ReplaceChar(s: string, from: char, to: char): (r: string)
    ensures |r| == |s|
    ensures forall k :: 0 <= k < |s| ==> r[k] == if s[k] == from then to else s[k]
  {
    seq(|s|, k requires 0 <= k < |s| => if s[k] == from then to else s[k])
  }

  /** Replacing a character the text does not contain changes nothing. */
  lemma ReplaceAbsent(s: string, from: char, to: char)
    requires from !in s
    ensures ReplaceChar(s, from, to) == s
  {
    assert forall k :: 0 <= k < |s| ==> s[k] != from;
  }

  // ---------------------------------------------------------------------------
  // split and its inverse

  /** `sep.join(pieces)`. */
  function Join(pieces: seq<string>, sep: char): string
    requires |pieces| >= 1
    decreases |pieces|
  {
    if |pieces| == 1 then pieces[0]
    else Join(pieces[..|pieces| - 1], sep) + [sep] + pieces[|pieces| - 1]
  }

  /** `s.split(sep)`: the pieces between separators, always at least one. */
  function Split(s: string, sep: char): (pieces: seq<string>)
    ensures |pieces| >= 1
    ensures forall k :: 0 <= k < |pieces| ==> sep !in pieces[k]
    decreases |s|
  {
    if s == [] then [[]]
    else
      var init := Split(s[..|s| - 1], sep);
      var c := s[|s| - 1];
      if c == sep then init + [[]]
      else init[..|init| - 1] + [init[|init| - 1] + [c]]
  }

  /** Splitting undoes joining, so `Split` and `Join` are each other's inverse. */
  lemma {:induction false} SplitJoin(s: string, sep: char)
    ensures Join(Split(s, sep), sep) == s
    decreases |s|
  {
    if s != [] {
      var init := Split(s[..|s| - 1], sep);
      SplitJoin(s[..|s| - 1], sep);
      var c := s[|s| - 1];
      assert s == s[..|s| - 1] + [c];
      if c != sep {
        JoinExtendLast(init, sep, c);
      }
    }
  }

  lemma {:induction false} JoinExtendLast(pieces: seq<string>, sep: char, c: char)
    requires |pieces| >= 1
    ensures Join(pieces[..|pieces| - 1] + [pieces[|pieces| - 1] + [c]], sep) == Join(pieces, sep) + [c]
  {
    var ext := pieces[..|pieces| - 1] + [pieces[|pieces| - 1] + [c]];
    assert ext[..|ext| - 1] == pieces[..|pieces| - 1];
  }

  /** Appending a separator and a separator-free piece appends that piece to the split. */
  lemma {:induction false} SplitAppend(s: string, sep: char, p: string)
    requires sep !in p
    ensures Split(s + [sep] + p, sep) == Split(s, sep) + [p]
    decreases |p|
  {
    if p == [] {
      assert s + [sep] + p == s + [sep];
      assert (s + [sep])[..|s|] == s;
    } else {
      var init := p[..|p| - 1];
      var c := p[|p| - 1];
      SplitAppend(s, sep, init);
      var t := s + [sep] + p;
      assert t[..|t| - 1] == s + [sep] + init;
      assert init + [c] == p;
    }
  }

  /** Joining then splitting gives the pieces back, when none holds the separator. */
  lemma {:induction false} JoinSplit(pieces: seq<string>, sep: char)
    requires |pieces| >= 1
    requires forall k :: 0 <= k < |pieces| ==> sep !in pieces[k]
    ensures Split(Join(pieces, sep), sep) == pieces
    decreases |pieces|
  {
    if |pieces| == 1 {
      SplitFree(pieces[0], sep);
    } else {
      var init := pieces[..|pieces| - 1];
      JoinSplit(init, sep);
      SplitAppend(Join(init, sep), sep, pieces[|pieces| - 1]);
    }
  }

  /** Text without the separator splits into itself alone. */
  lemma {:induction false} SplitFree(s: string, sep: char)
    requires sep !in s
    ensures Split(s, sep) == [s]
    decreases |s|
  {
    if s != [] {
      SplitFree(s[..|s| - 1], sep);
      assert s[..|s| - 1] + [s[|s| - 1]] == s;
    }
  }

  /** `s.index(c)`: where the first `c` is. */
  function FirstIndex(s: string, c: char): (i: nat)
    requires c in s
    ensures i < |s| && s[i] == c && c !in s[..i]
    decreases |s|
  {
    if s[0] == c then 0
    else
      assert s == [s[0]] + s[1..];
      var i := 1 + FirstIndex(s[1..], c);
      assert s[..i] == [s[0]] + s[1..][..i - 1];
      i
  }

  /** Joining two or more pieces starts with the first piece and a separator. */
  lemma {:induction false} JoinHead(pieces: seq<string>, sep: char)
    requires |pieces| >= 2
    ensures |pieces[0]| < |Join(pieces, sep)|
    ensures Join(pieces, sep)[..|pieces[0]| + 1] == pieces[0] + [sep]
    decreases |pieces|
  {
    var init := pieces[..|pieces| - 1];
    if |pieces| > 2 {
      JoinHead(init, sep);
    }
  }

  /** The first piece of `s.split(sep)` is the text before the first separator. */
  lemma SplitHead(s: string, sep: char)
    requires sep in s
    ensures Split(s, sep)[0] == s[..FirstIndex(s, sep)]
  {
    var pieces := Split(s, sep);
    SplitJoin(s, sep);
    JoinHead(pieces, sep);
    var n := |pieces[0]|;
    assert s[..n + 1] == pieces[0] + [sep];
    assert s[..n] == pieces[0];
    FirstIndexIs(s, sep, n);
  }

  /** A separator with none before it is the first one. */
  lemma FirstIndexIs(s: string, c: char, n: nat)
    requires n < |s| && s[n] == c && c !in s[..n]
    ensures FirstIndex(s, c) == n
  {
  }
}
