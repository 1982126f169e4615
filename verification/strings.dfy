/** The Kotlin standard-library string operations the parsers and the generator rely on.
    Kotlin's `substringBefore`/`substringAfter` family returns the WHOLE input when the
    delimiter is missing; the functions below keep that behaviour. */
module Strings {
  import opened Results

  /** Kotlin's `Char.isWhitespace` on the JVM: `Character.isWhitespace` or `Character.isSpaceChar`. */
  predicate IsWhitespace(c: char) {
    var n := c as int;
    || (9 <= n <= 13)
    || (28 <= n <= 32)
    || n == 0xA0 || n == 0x1680
    || (0x2000 <= n <= 0x200A)
    || n == 0x2028 || n == 0x2029 || n == 0x202F || n == 0x205F || n == 0x3000
  }

  /** Kotlin's `isBlank`: empty or whitespace only. */
  predicate IsBlank(s: string) {
    forall i | 0 <= i < |s| :: IsWhitespace(s[i])
  }

  /** No whitespace at either end, which is what `trim` produces. */
  predicate IsTrimmed(s: string) {
    |s| == 0 || (!IsWhitespace(s[0]) && !IsWhitespace(s[|s| - 1]))
  }

  /** The characters at which `lineSequence` splits. */
  predicate IsLineBreak(c: char) {
    c == '\n' || c == '\r'
  }

  predicate NoLineBreak(s: string) {
    forall i | 0 <= i < |s| :: !IsLineBreak(s[i])
  }

  predicate StartsWith(s: string, prefix: string) {
    |prefix| <= |s| && s[..|prefix|] == prefix
  }

  /** A prefix of a prefix is a prefix. */
  lemma StartsWithPrefix(s: string, a: string, b: string)
    requires StartsWith(s, a + b)
    ensures StartsWith(s, a)
  {
    assert s[..|a|] == (a + b)[..|a|];
  }

  function TrimStart(s: string): (r: string)
    ensures |r| <= |s| && r == s[|s| - |r|..]
    ensures IsBlank(s[..|s| - |r|])
    ensures |r| == 0 || !IsWhitespace(r[0])
  {
    if |s| > 0 && IsWhitespace(s[0]) then TrimStart(s[1..]) else s
  }

  function TrimEnd(s: string): (r: string)
    ensures |r| <= |s| && r == s[..|r|]
    ensures IsBlank(s[|r|..])
    ensures |r| == 0 || !IsWhitespace(r[|r| - 1])
  {
    if |s| > 0 && IsWhitespace(s[|s| - 1]) then TrimEnd(s[..|s| - 1]) else s
  }

  /** Kotlin's `String.trim()`: drop leading and trailing whitespace. */
  function Trim(s: string): (r: string)
    ensures IsTrimmed(r)
    ensures exists i, j | 0 <= i <= j <= |s| :: r == s[i..j] && IsBlank(s[..i]) && IsBlank(s[j..])
  {
    var t := TrimStart(s);
    var r := TrimEnd(t);
    var i := |s| - |t|;
    TrimParts(s, t, r, i);
    r
  }

  /** Cutting a blank head and then a blank tail leaves a trimmed slice between two blank ends. */
  lemma TrimParts(s: string, t: string, r: string, i: nat)
    requires i <= |s| && t == s[i..] && IsBlank(s[..i]) && (|t| == 0 || !IsWhitespace(t[0]))
    requires |r| <= |t| && r == t[..|r|] && IsBlank(t[|r|..]) && (|r| == 0 || !IsWhitespace(r[|r| - 1]))
    ensures IsTrimmed(r)
    ensures r == s[i..i + |r|] && IsBlank(s[..i]) && IsBlank(s[i + |r|..])
  {
    assert s[i + |r|..] == t[|r|..];
    if |r| > 0 {
      assert r[0] == t[0];
    }
  }

  lemma TrimOfTrimmed(s: string)
    requires IsTrimmed(s)
    ensures Trim(s) == s
  {
  }

  /** Index of the first occurrence of `c`. */
  function IndexOfChar(s: string, c: char): (r: Option<nat>)
    ensures r.Some? ==> r.value < |s| && s[r.value] == c && c !in s[..r.value]
    ensures r.None? <==> c !in s
  {
    if |s| == 0 then None
    else if s[0] == c then Some(0)
    else match IndexOfChar(s[1..], c)
      case None => None
      case Some(i) => assert s[..i + 1] == [s[0]] + s[1..][..i]; Some(i + 1)
  }

  /** Index of the last occurrence of `c`. */
  function LastIndexOfChar(s: string, c: char): (r: Option<nat>)
    ensures r.Some? ==> r.value < |s| && s[r.value] == c && c !in s[r.value + 1..]
    ensures r.None? <==> c !in s
  {
    if |s| == 0 then None
    else if s[|s| - 1] == c then Some(|s| - 1)
    else
      var r := LastIndexOfChar(s[..|s| - 1], c);
      assert s == s[..|s| - 1] + [s[|s| - 1]];
      r
  }

  /** `substringBefore(c)`: the text before the first `c`, or all of `s` without one. */
  function SubstringBefore(s: string, c: char): (r: string)
    ensures c !in r
    ensures c in s ==> StartsWith(s, r + [c])
    ensures c !in s ==> r == s
  {
    match IndexOfChar(s, c)
    case None => s
    case Some(i) => s[..i]
  }

  /** What `substringBefore(c)` returns is a prefix of `s` that ends at the first `c` or at the end. */
  lemma SubstringBeforePrefix(s: string, c: char)
    ensures var r := SubstringBefore(s, c);
      |r| <= |s| && s[..|r|] == r && (|r| == |s| || s[|r|] == c)
  {
  }

  /** `substringAfter(c)`: the text after the first `c`, or all of `s` without one. */
  function SubstringAfterChar(s: string, c: char): (r: string)
    ensures c in s ==> exists i | 0 <= i < |s| :: s[i] == c && c !in s[..i] && r == s[i + 1..]
    ensures c !in s ==> r == s
  {
    match IndexOfChar(s, c)
    case None => s
    case Some(i) => s[i + 1..]
  }

  /** `substringBeforeLast(c)`: the text before the last `c`, or all of `s` without one. */
  function SubstringBeforeLast(s: string, c: char): (r: string)
    ensures c in s ==> |r| < |s| && s[|r|] == c && s[..|r|] == r && c !in s[|r| + 1..]
    ensures c !in s ==> r == s
  {
    match LastIndexOfChar(s, c)
    case None => s
    case Some(i) => s[..i]
  }

  /** `substringAfterLast(c)`: the text after the last `c`, or all of `s` without one. */
  function SubstringAfterLast(s: string, c: char): (r: string)
    ensures c !in r
    ensures c in s ==> |r| < |s| && s[|s| - |r| - 1] == c && r == s[|s| - |r|..]
    ensures c !in s ==> r == s
  {
    match LastIndexOfChar(s, c)
    case None => s
    case Some(i) => s[i + 1..]
  }

  /** `pat` occurs in `s` at position `i`. */
  predicate OccursAt(s: string, pat: string, i: int) {
    0 <= i && i + |pat| <= |s| && s[i..i + |pat|] == pat
  }

  /** `indexOf(pat)`: position of the first occurrence of `pat`. */
  function Find(s: string, pat: string): (r: Option<nat>)
    ensures r.Some? ==> OccursAt(s, pat, r.value)
    ensures r.Some? ==> forall j | 0 <= j < r.value :: !OccursAt(s, pat, j)
    ensures r.None? ==> forall j :: !OccursAt(s, pat, j)
  {
    if |pat| > |s| then None
    else if s[..|pat|] == pat then Some(0)
    else
      var r := Find(s[1..], pat);
      assert forall j | 1 <= j :: OccursAt(s, pat, j) <==> OccursAt(s[1..], pat, j - 1) by {
        forall j | 1 <= j ensures OccursAt(s, pat, j) <==> OccursAt(s[1..], pat, j - 1) {
          OccursShift(s, pat, j);
        }
      }
      match r
      case None => None
      case Some(i) => Some(i + 1)
  }

  /** An occurrence past the first character is an occurrence in the rest. */
  lemma OccursShift(s: string, pat: string, j: int)
    requires |s| > 0 && 1 <= j
    ensures OccursAt(s, pat, j) <==> OccursAt(s[1..], pat, j - 1)
  {
    if j + |pat| <= |s| {
      assert s[1..][j - 1..j - 1 + |pat|] == s[j..j + |pat|];
    }
  }

  /** `substringAfter(pat)`: the text after the first `pat`, or all of `s` without one. */
  function SubstringAfter(s: string, pat: string): (r: string)
    ensures Find(s, pat).Some? ==> r == s[Find(s, pat).value + |pat|..]
    ensures Find(s, pat).None? ==> r == s
  {
    match Find(s, pat)
    case None => s
    case Some(i) => s[i + |pat|..]
  }

  /** `joinToString(separator = sep)`. */
  function Join(parts: seq<string>, sep: string): (r: string)
    ensures |parts| == 1 ==> r == parts[0]
    ensures |parts| >= 2 ==> r == parts[0] + sep + Join(parts[1..], sep)
  {
    if |parts| == 0 then ""
    else if |parts| == 1 then parts[0]
    else parts[0] + sep + Join(parts[1..], sep)
  }

  /** Length of the first line terminator at `s[i..]`: `\r\n` counts as one. */
  function BreakWidth(s: string, i: nat): nat
    requires i < |s| && IsLineBreak(s[i])
  {
    if s[i] == '\r' && i + 1 < |s| && s[i + 1] == '\n' then 2 else 1
  }

  /** Index of the first line-break character. */
  function FirstBreak(s: string): (r: Option<nat>)
    ensures r.Some? ==> r.value < |s| && IsLineBreak(s[r.value]) && NoLineBreak(s[..r.value])
    ensures r.None? <==> NoLineBreak(s)
  {
    if |s| == 0 then None
    else if IsLineBreak(s[0]) then Some(0)
    else match FirstBreak(s[1..])
      case None => None
      case Some(i) => assert s[..i + 1] == [s[0]] + s[1..][..i]; Some(i + 1)
  }

  /** Kotlin's `lineSequence()`: the lines between `\r\n`, `\n` and `\r`. */
  function SplitLines(s: string): (r: seq<string>)
    ensures |r| >= 1
    ensures forall k | 0 <= k < |r| :: NoLineBreak(r[k])
    decreases |s|
  {
    match FirstBreak(s)
    case None => [s]
    case Some(i) => [s[..i]] + SplitLines(s[i + BreakWidth(s, i)..])
  }

  lemma SplitSingleLine(s: string)
    requires NoLineBreak(s)
    ensures SplitLines(s) == [s]
  {
  }

  /** One line of Kotlin's `prependIndent`: a blank line shorter than the indent becomes the indent,
      another blank line is kept, and any other line gets the indent in front. */
  function IndentLine(line: string, indent: string): (r: string)
    ensures !IsBlank(line) ==> r == indent + line
    ensures IsBlank(line) ==> r == line || r == indent
  {
    if IsBlank(line) then (if |line| < |indent| then indent else line) else indent + line
  }

  function IndentLines(lines: seq<string>, indent: string): (r: seq<string>)
    ensures |r| == |lines|
    ensures forall k | 0 <= k < |lines| :: r[k] == IndentLine(lines[k], indent)
  {
    if |lines| == 0 then [] else [IndentLine(lines[0], indent)] + IndentLines(lines[1..], indent)
  }

  /** Kotlin's `prependIndent(indent)`: indent every line and rejoin them with `\n`. */
  function PrependIndent(s: string, indent: string): (r: string)
    ensures NoLineBreak(s) ==> r == IndentLine(s, indent)
  {
    Join(IndentLines(SplitLines(s), indent), "\n")
  }

  /** The dotted parent of a VSS path and its last segment (`VssPath.parent` / `leaf`). */
  function Parent(vssPath: string): string {
    SubstringBeforeLast(vssPath, '.')
  }

  function Leaf(vssPath: string): string {
    SubstringAfterLast(vssPath, '.')
  }

  /** Splitting at the last `c` undoes appending `c` and a `c`-free tail. */
  lemma SplitAtLast(head: string, c: char, tail: string)
    requires c !in tail
    ensures SubstringAfterLast(head + [c] + tail, c) == tail
    ensures SubstringBeforeLast(head + [c] + tail, c) == head
  {
    var s := head + [c] + tail;
    assert s[|head|] == c;
  }
}
