/** String helpers with the meaning Python's `str` methods have in the source:
    `isspace`, `strip`, `startswith`, `in`, `splitlines`, `lower`, `join`,
    slicing and `int()` of a digit run. */
module Text {

  datatype Option<+T> = None | Some(value: T)

  /** Python `str.isspace()`, which is also the set `\s` matches in a `str` pattern. */
  predicate IsSpace(c: char) {
    c == ' ' || ('\t' <= c <= '\r') || ('\U{1c}' <= c <= '\U{1f}') || c == '\U{85}' || c == '\U{a0}'
    || c == '\U{1680}' || ('\U{2000}' <= c <= '\U{200a}') || c == '\U{2028}' || c == '\U{2029}'
    || c == '\U{202f}' || c == '\U{205f}' || c == '\U{3000}'
  }

  /** The characters at which `str.splitlines()` ends a line. */
  predicate IsLineBreak(c: char) {
    ('\n' <= c <= '\r') || ('\U{1c}' <= c <= '\U{1e}') || c == '\U{85}' || c == '\U{2028}' || c == '\U{2029}'
  }

  /** `\d`, restricted to the ASCII digits. */
  predicate IsDigit(c: char) { '0' <= c <= '9' }

  predicate IsAsciiUpper(c: char) { 'A' <= c <= 'Z' }
  predicate IsAsciiLower(c: char) { 'a' <= c <= 'z' }

  /** A CJK unified ideograph, the range `[一-鿿]`. */
  predicate IsCjk(c: char) { '\U{4e00}' <= c <= '\U{9fff}' }

  /** `x in s` for strings: `w` occurs in `s` starting at `i`. */
  predicate OccursAt(s: string, w: string, i: nat) {
    i + |w| <= |s| && s[i..i + |w|] == w
  }

  predicate Contains(s: string, w: string) {
    exists i: nat | i <= |s| :: OccursAt(s, w, i)
  }

  /** `any(w in s for w in ws)` */
  predicate ContainsAny(s: string, ws: seq<string>) {
    exists w <- ws :: Contains(s, w)
  }

  predicate StartsWith(s: string, p: string) {
    OccursAt(s, p, 0)
  }

  /** The first index at or after `i` whose character fails `p`, or `|s|`. */
  function SkipWhile(s: string, i: nat, p: char -> bool): (r: nat)
    requires i <= |s|
    ensures i <= r <= |s|
    ensures forall k | i <= k < r :: p(s[k])
    ensures r == |s| || !p(s[r])
    decreases |s| - i
  {
    if i < |s| && p(s[i]) then SkipWhile(s, i + 1, p) else i
  }

  function SkipSpaces(s: string, i: nat): (r: nat)
    requires i <= |s|
    ensures i <= r <= |s|
    ensures forall k | i <= k < r :: IsSpace(s[k])
    ensures r == |s| || !IsSpace(s[r])
  {
    SkipWhile(s, i, IsSpace)
  }

  /** `s.lstrip(chars)` where `drop` is the set of characters to strip. */
  function TrimLeft(s: string, drop: char -> bool): (r: string)
    ensures |r| <= |s| && r == s[|s| - |r|..]
    ensures r == [] || !drop(r[0])
  {
    s[SkipWhile(s, 0, drop)..]
  }

  lemma TrimLeftDropped(s: string, drop: char -> bool)
    ensures forall k | 0 <= k < |s| - |TrimLeft(s, drop)| :: drop(s[k])
  {
  }

  /** The index just after the last character before `j` that fails `p`, or 0. */
  function SkipBackWhile(s: string, j: nat, p: char -> bool): (r: nat)
    requires j <= |s|
    ensures r <= j
    ensures forall k | r <= k < j :: p(s[k])
    ensures r == 0 || !p(s[r - 1])
  {
    if j > 0 && p(s[j - 1]) then SkipBackWhile(s, j - 1, p) else j
  }

  /** The skipping functions stop exactly at the first character that fails. */
  lemma SkipWhileAt(s: string, i: nat, p: char -> bool, x: nat)
    requires i <= x <= |s| && (forall k | i <= k < x :: p(s[k])) && (x == |s| || !p(s[x]))
    ensures SkipWhile(s, i, p) == x
  {
  }

  lemma SkipBackWhileAt(s: string, j: nat, p: char -> bool, x: nat)
    requires x <= j <= |s| && (forall k | x <= k < j :: p(s[k])) && (x == 0 || !p(s[x - 1]))
    ensures SkipBackWhile(s, j, p) == x
  {
  }

  /** `s.rstrip(chars)` */
  function TrimRight(s: string, drop: char -> bool): (r: string)
    ensures |r| <= |s| && r == s[..|r|]
    ensures r == [] || !drop(r[|r| - 1])
  {
    s[..SkipBackWhile(s, |s|, drop)]
  }

  lemma TrimRightDropped(s: string, drop: char -> bool)
    ensures forall k | |TrimRight(s, drop)| <= k < |s| :: drop(s[k])
  {
  }

  function Trim(s: string, drop: char -> bool): (r: string)
    ensures r == [] || (!drop(r[0]) && !drop(r[|r| - 1]))
    ensures |r| <= |s|
  {
    TrimRight(TrimLeft(s, drop), drop)
  }

  /** What trimming keeps is a contiguous part of the original, and only droppable
      characters are removed around it. */
  lemma TrimWithin(s: string, drop: char -> bool)
    ensures exists i: nat | i + |Trim(s, drop)| <= |s| ::
      (OccursAt(s, Trim(s, drop), i)
       && (forall k | 0 <= k < i :: drop(s[k]))
       && (forall k | i + |Trim(s, drop)| <= k < |s| :: drop(s[k])))
  {
    var l := TrimLeft(s, drop);
    var r := TrimRight(l, drop);
    var i := |s| - |l|;
    TrimLeftDropped(s, drop);
    TrimRightDropped(l, drop);
    assert r == Trim(s, drop);
    assert OccursAt(s, r, i);
    forall k | i + |r| <= k < |s|
      ensures drop(s[k])
    {
      assert s[k] == l[k - i];
    }
    assert forall k | 0 <= k < i :: drop(s[k]);
  }

  function LStrip(s: string): string { TrimLeft(s, IsSpace) }
  function RStrip(s: string): string { TrimRight(s, IsSpace) }
  /** `s.strip()` */
  function Strip(s: string): string { Trim(s, IsSpace) }

  /** The character set of the source's `strip("（）() ")`. */
  predicate IsBracketOrBlank(c: char) { c in "（）() " }

  /** `s.strip("（）() ")` */
  function StripBrackets(s: string): string { Trim(s, IsBracketOrBlank) }

  /** Python slicing `s[i:j]` for non-negative bounds: both ends are clamped to the length. */
  function Slice(s: string, i: nat, j: nat): (r: string)
    ensures |r| <= |s|
    ensures i <= j <= |s| ==> r == s[i..j]
  {
    var hi := if j <= |s| then j else |s|;
    if i <= hi then s[i..hi] else []
  }

  /** The length of the first line of `s`: the index of the first line break, or `|s|`. */
  function LineEnd(s: string, i: nat): (r: nat)
    requires i <= |s|
    ensures i <= r <= |s| && (r == |s| || IsLineBreak(s[r]))
    ensures forall k | i <= k < r :: !IsLineBreak(s[k])
    decreases |s| - i
  {
    if i == |s| || IsLineBreak(s[i]) then i else LineEnd(s, i + 1)
  }

  predicate NoLineBreak(line: string) {
    forall k | 0 <= k < |line| :: !IsLineBreak(line[k])
  }

  /** The lines from `i` on hold no line break. */
  predicate NoBreaksFrom(lines: seq<string>, i: nat) {
    forall k | i <= k < |lines| :: NoLineBreak(lines[k])
  }

  /** Stripping keeps a line free of breaks. */
  lemma StripNoLineBreak(s: string)
    ensures NoLineBreak(s) ==> NoLineBreak(Strip(s))
  {
    TrimWithin(s, IsSpace);
  }

  /** Joining pieces free of breaks with a separator free of breaks gives no break. */
  lemma {:induction false} JoinNoLineBreak(sep: string, parts: seq<string>)
    requires NoLineBreak(sep)
    ensures NoBreaksFrom(parts, 0) ==> NoLineBreak(Join(sep, parts))
  {
    if |parts| > 1 {
      JoinNoLineBreak(sep, parts[..|parts| - 1]);
    }
  }

  /** `s.splitlines()`: "\r\n" counts as one break, and a break at the very end does
      not start an empty last line. */
  function SplitLines(s: string): (lines: seq<string>)
    ensures forall k | 0 <= k < |lines| :: NoLineBreak(lines[k])
    ensures s == [] <==> lines == []
    decreases |s|
  {
    if s == [] then []
    else
      var k := LineEnd(s, 0);
      if k == |s| then [s]
      else
        var next := if s[k] == '\r' && k + 1 < |s| && s[k + 1] == '\n' then k + 2 else k + 1;
        [s[..k]] + SplitLines(s[next..])
  }

  /** `sep.join(parts)` */
  function Join(sep: string, parts: seq<string>): (r: string)
    ensures parts == [] ==> r == []
    ensures |parts| == 1 ==> r == parts[0]
  {
    if parts == [] then []
    else if |parts| == 1 then parts[0]
    else Join(sep, parts[..|parts| - 1]) + sep + parts[|parts| - 1]
  }

  function LowerChar(c: char): char {
    if IsAsciiUpper(c) then (c as int + 32) as char else c
  }

  function UpperChar(c: char): char {
    if IsAsciiLower(c) then (c as int - 32) as char else c
  }

  /** `s.lower()`, for the letters A-Z. */
  function Lower(s: string): (r: string)
    ensures |r| == |s| && forall k | 0 <= k < |s| :: r[k] == LowerChar(s[k])
  {
    seq(|s|, k requires 0 <= k < |s| => LowerChar(s[k]))
  }

  /** `int(s)` of a run of ASCII digits. */
  function NumberValue(s: string): (n: nat)
    decreases |s|
  {
    if s == [] then 0
    else
      var d := s[|s| - 1];
      NumberValue(s[..|s| - 1]) * 10 + (if IsDigit(d) then d as int - '0' as int else 0)
  }

  /** Keeps the non-empty strings of `xs`, in order: `[p for p in xs if p]`. */
  function NonEmpty(xs: seq<string>): (r: seq<string>)
    ensures |r| <= |xs|
    ensures forall k | 0 <= k < |r| :: r[k] != [] && r[k] in xs
    ensures forall x <- xs :: x != [] ==> x in r
  {
    if xs == [] then []
    else
      var rest := NonEmpty(xs[..|xs| - 1]);
      assert xs == xs[..|xs| - 1] + [xs[|xs| - 1]];
      if xs[|xs| - 1] != [] then rest + [xs[|xs| - 1]] else rest
  }

  lemma AppendAssoc<T>(a: seq<T>, b: seq<T>, c: seq<T>)
    ensures (a + b) + c == a + (b + c)
  {
  }

  /** Lowering keeps an occurrence of a word that has no upper-case letter. */
  lemma {:induction false} LowerKeepsOccurrence(s: string, w: string, i: nat)
    requires OccursAt(s, w, i)
    requires forall k | 0 <= k < |w| :: !IsAsciiUpper(w[k])
    ensures OccursAt(Lower(s), w, i)
  {
    var l := Lower(s);
    forall k | 0 <= k < |w|
      ensures l[i + k] == w[k]
    {
      assert s[i + k] == s[i..i + |w|][k];
    }
    assert l[i..i + |w|] == w;
  }

  /** Stripping what `lstrip` left behind is the same as stripping the original. */
  lemma StripOfLStrip(s: string)
    ensures Strip(LStrip(s)) == Strip(s)
  {
    var l := LStrip(s);
    assert l == [] || !IsSpace(l[0]);
    assert SkipWhile(l, 0, IsSpace) == 0;
  }

  /** The first character of a stripped string is the first non-blank of the original. */
  lemma StripFirst(s: string)
    requires Strip(s) != []
    ensures SkipSpaces(s, 0) < |s| && Strip(s)[0] == s[SkipSpaces(s, 0)]
  {
    var l := TrimLeft(s, IsSpace);
    assert Strip(s) == l[..|Strip(s)|];
  }

  /** A string made only of whitespace strips to the empty string. */
  lemma StripOfBlank(s: string)
    requires forall k | 0 <= k < |s| :: IsSpace(s[k])
    ensures Strip(s) == []
  {
  }
}
