/**
 * The parts of Python's `str` type that the modelled code relies on:
 * `isspace`/`strip`, `lower`, `title`, the `in` substring test,
 * `join`, `split(sep)`, `splitlines()`, `replace` and the ordering `<=`
 * on strings.
 */
module Strings {

  // ---------------------------------------------------------------- whitespace

  /** The characters for which Python's `str.isspace()` is true. */
  predicate IsSpace(c: char) {
    || c == ' '
    || ('\t' <= c <= '\r')
    || ('\U{1c}' <= c <= '\U{1f}')
    || c == '\U{85}' || c == '\U{a0}' || c == '\U{1680}'
    || ('\U{2000}' <= c <= '\U{200a}')
    || c == '\U{2028}' || c == '\U{2029}' || c == '\U{202f}' || c == '\U{205f}' || c == '\U{3000}'
  }

  predicate AllSpace(s: string) {
    forall i :: 0 <= i < |s| ==> IsSpace(s[i])
  }

  /** `s.lstrip()`: the suffix of `s` that starts at its first non-space character. */
  function LStrip(s: string): (r: string)
    ensures |r| <= |s| && r == s[|s| - |r|..]
    ensures r == [] || !IsSpace(r[0])
  {
    if s != [] && IsSpace(s[0]) then LStrip(s[1..]) else s
  }

  /** What `lstrip` removes is whitespace. */
  lemma {:induction false} LStripRemovesSpace(s: string)
    ensures AllSpace(s[..|s| - |LStrip(s)|])
  {
    if s != [] && IsSpace(s[0]) {
      LStripRemovesSpace(s[1..]);
      var k := |s| - |LStrip(s)|;
      forall j | 0 <= j < k ensures IsSpace(s[..k][j]) {
        if j > 0 { assert s[..k][j] == s[1..][..k - 1][j - 1]; }
      }
    }
  }

  /** `s.rstrip()`: the prefix of `s` that ends at its last non-space character. */
  function RStrip(s: string): (r: string)
    ensures |r| <= |s| && r == s[..|r|]
    ensures r == [] || !IsSpace(r[|r| - 1])
  {
    if s != [] && IsSpace(s[|s| - 1]) then RStrip(s[..|s| - 1]) else s
  }

  /** What `rstrip` removes is whitespace. */
  lemma {:induction false} RStripRemovesSpace(s: string)
    ensures AllSpace(s[|RStrip(s)|..])
  {
    if s != [] && IsSpace(s[|s| - 1]) {
      var init := s[..|s| - 1];
      RStripRemovesSpace(init);
      var k := |RStrip(s)|;
      forall j | 0 <= j < |s| - k ensures IsSpace(s[k..][j]) {
        if k + j < |s| - 1 { assert s[k..][j] == init[k..][j]; }
      }
    }
  }

  /** `s.strip()`: what is left of `s` once the whitespace at both ends is cut off. */
  function Strip(s: string): (r: string)
    ensures |r| <= |s|
    ensures r == [] || (!IsSpace(r[0]) && !IsSpace(r[|r| - 1]))
    ensures StripStart(s) + |r| <= |s| && r == s[StripStart(s)..StripStart(s) + |r|]
  {
    var l := LStrip(s);
    var r := RStrip(l);
    assert s[StripStart(s)..StripStart(s) + |r|] == r;
    r
  }

  /** What `strip` cuts off at either end is whitespace. */
  lemma StripRemovesSpace(s: string)
    ensures AllSpace(s[..StripStart(s)]) && AllSpace(s[StripStart(s) + |Strip(s)|..])
  {
    var l := LStrip(s);
    var r := RStrip(l);
    LStripRemovesSpace(s);
    RStripRemovesSpace(l);
    assert s[StripStart(s) + |r|..] == l[|r|..];
  }

  /** Where the strip of `s` starts: after its leading whitespace. */
  function StripStart(s: string): nat {
    |s| - |LStrip(s)|
  }

  /** Stripping only removes characters: every character of the strip is one of `s`. */
  lemma StripChars(s: string, c: char)
    requires c in Strip(s)
    ensures c in s
  {
    var r := Strip(s);
    var i := StripStart(s);
    var k :| 0 <= k < |r| && r[k] == c;
    assert s[i + k] == c;
  }

  /** A string with no whitespace at either end is its own strip. */
  lemma StripOfTrimmed(s: string)
    requires s == [] || (!IsSpace(s[0]) && !IsSpace(s[|s| - 1]))
    ensures Strip(s) == s
  {
  }

  // ---------------------------------------------------------------- case

  function LowerChar(c: char): char {
    if 'A' <= c <= 'Z' then (c as int + 32) as char else c
  }

  function UpperChar(c: char): char {
    if 'a' <= c <= 'z' then (c as int - 32) as char else c
  }

  predicate IsAsciiLetter(c: char) {
    ('A' <= c <= 'Z') || ('a' <= c <= 'z')
  }

  /** `s.lower()`, for the ASCII letters. */
  function Lower(s: string): string {
    seq(|s|, i requires 0 <= i < |s| => LowerChar(s[i]))
  }

  /** Lower-casing twice is lower-casing once, so comparisons against `lower()` are case-insensitive. */
  lemma LowerIdempotent(s: string)
    ensures Lower(Lower(s)) == Lower(s)
  {
  }

  /** `s.title()`, for the ASCII letters: a letter is upper-cased after a non-letter and lower-cased after a letter. */
  function Title(s: string): (r: string)
    ensures |r| == |s|
    ensures forall i :: 0 <= i < |s| ==> r[i] == TitleChar(s[i], i > 0 && IsAsciiLetter(s[i - 1]))
  {
    TitleAfter(s, false)
  }

  /** The title-cased character `c`: a letter is lower-cased right after a letter and upper-cased elsewhere. */
  function TitleChar(c: char, afterLetter: bool): char {
    if !IsAsciiLetter(c) then c else if afterLetter then LowerChar(c) else UpperChar(c)
  }

  /** `Title` of a suffix of a string, given whether the character before the suffix is a letter. */
  function TitleAfter(s: string, afterLetter: bool): (r: string)
    ensures |r| == |s|
    ensures forall i :: 0 <= i < |s| ==> r[i] == TitleChar(s[i], if i == 0 then afterLetter else IsAsciiLetter(s[i - 1]))
  {
    if s == [] then []
    else
      var c := s[0];
      var rest := TitleAfter(s[1..], IsAsciiLetter(c));
      [TitleChar(c, afterLetter)] + rest
  }

  /** Title-casing only changes the case of letters. */
  lemma {:induction false} LowerOfTitle(s: string, afterLetter: bool)
    ensures Lower(TitleAfter(s, afterLetter)) == Lower(s)
  {
    if s != [] {
      LowerOfTitle(s[1..], IsAsciiLetter(s[0]));
      var t := TitleAfter(s, afterLetter);
      assert t == [t[0]] + TitleAfter(s[1..], IsAsciiLetter(s[0]));
      forall i | 0 <= i < |s| ensures Lower(t)[i] == Lower(s)[i] {
        if i > 0 {
          assert Lower(t)[i] == Lower(TitleAfter(s[1..], IsAsciiLetter(s[0])))[i - 1];
          assert Lower(s)[i] == Lower(s[1..])[i - 1];
        }
      }
    }
  }

  // ---------------------------------------------------------------- substring

  /** `w` occurs in `t` at index `i`. */
  predicate OccursAt(t: string, w: string, i: int) {
    0 <= i <= |t| - |w| && t[i..i + |w|] == w
  }

  lemma OccursAtShift(t: string, w: string, i: nat)
    requires t != []
    ensures OccursAt(t[1..], w, i) <==> OccursAt(t, w, i + 1)
  {
    if 0 <= i <= |t| - 1 - |w| {
      assert t[1..][i..i + |w|] == t[i + 1..i + 1 + |w|];
    }
  }

  /** Python's `w in t` on strings: `w` occurs somewhere in `t`. */
  function Contains(t: string, w: string): (b: bool)
    ensures b <==> exists i :: OccursAt(t, w, i)
  {
    if w <= t then
      assert OccursAt(t, w, 0);
      true
    else if t == [] then
      false
    else
      var b := Contains(t[1..], w);
      assert b ==> exists i :: OccursAt(t, w, i) by {
        if b {
          var i :| OccursAt(t[1..], w, i);
          OccursAtShift(t, w, i);
        }
      }
      assert (exists i :: OccursAt(t, w, i)) ==> b by {
        if exists i :: OccursAt(t, w, i) {
          var i :| OccursAt(t, w, i);
          assert i != 0;
          OccursAtShift(t, w, i - 1);
        }
      }
      b
  }

  // ---------------------------------------------------------------- join and split

  /** `sep.join(parts)`. */
  function Join(sep: string, parts: seq<string>): string {
    if |parts| == 0 then ""
    else if |parts| == 1 then parts[0]
    else parts[0] + sep + Join(sep, parts[1..])
  }

  /** The index of the first `c` in `s`, or `|s|` when there is none. */
  function IndexOf(s: string, c: char): (k: nat)
    ensures k <= |s|
    ensures k < |s| ==> s[k] == c
    ensures c !in s[..k]
  {
    if s == [] then 0
    else if s[0] == c then 0
    else 1 + IndexOf(s[1..], c)
  }

  /** `s.split(sep)` for a one-character separator: never empty, and joining back gives `s`. */
  function Split(s: string, sep: char): (parts: seq<string>)
    ensures |parts| >= 1
    ensures forall p :: p in parts ==> sep !in p
    ensures Join([sep], parts) == s
    decreases |s|
  {
    var k := IndexOf(s, sep);
    if k == |s| then
      [s]
    else
      var rest := Split(s[k + 1..], sep);
      JoinCons([sep], s[..k], rest);
      assert s == s[..k] + [sep] + s[k + 1..];
      [s[..k]] + rest
  }

  /** A separator-free string splits into itself alone. */
  lemma SplitWithoutSeparator(s: string, sep: char)
    requires sep !in s
    ensures Split(s, sep) == [s]
  {
    assert s[..|s|] == s;
  }

  /** Splitting a join of separator-free parts gives the parts back. */
  lemma {:induction false} SplitJoin(parts: seq<string>, sep: char)
    requires |parts| >= 1
    requires forall p :: p in parts ==> sep !in p
    ensures Split(Join([sep], parts), sep) == parts
  {
    if |parts| == 1 {
      SplitWithoutSeparator(parts[0], sep);
    } else {
      var s := Join([sep], parts);
      var tail := Join([sep], parts[1..]);
      assert parts == [parts[0]] + parts[1..];
      JoinCons([sep], parts[0], parts[1..]);
      assert s == parts[0] + ([sep] + tail);
      var k := |parts[0]|;
      IndexOfAfterFree(parts[0], [sep] + tail, sep);
      SplitAt(s, sep, k);
      assert s[..k] == parts[0];
      assert s[k + 1..] == tail;
      SplitJoin(parts[1..], sep);
    }
  }

  lemma SplitAt(s: string, sep: char, k: nat)
    requires k < |s| && IndexOf(s, sep) == k
    ensures Split(s, sep) == [s[..k]] + Split(s[k + 1..], sep)
  {
  }

  lemma IndexOfAfterFree(a: string, b: string, c: char)
    requires c !in a && b != [] && b[0] == c
    ensures IndexOf(a + b, c) == |a|
  {
    if a != [] {
      assert (a + b)[1..] == a[1..] + b;
      IndexOfAfterFree(a[1..], b, c);
    }
  }

  // ---------------------------------------------------------------- lines

  /** The line boundaries recognised by Python's `str.splitlines()` (`\r\n` is handled as one). */
  predicate IsLineBreak(c: char) {
    || c == '\n' || c == '\r' || c == '\U{b}' || c == '\U{c}'
    || ('\U{1c}' <= c <= '\U{1e}')
    || c == '\U{85}' || c == '\U{2028}' || c == '\U{2029}'
  }

  predicate NoLineBreak(l: string) {
    forall i :: 0 <= i < |l| ==> !IsLineBreak(l[i])
  }

  /** The index of the first line boundary in `s`, or `|s|`. */
  function LineEnd(s: string): (k: nat)
    ensures k <= |s|
    ensures k < |s| ==> IsLineBreak(s[k])
    ensures NoLineBreak(s[..k])
  {
    if s == [] || IsLineBreak(s[0]) then 0 else 1 + LineEnd(s[1..])
  }

  /**
   * `s.splitlines()`: the lines of `s` without their terminators; a final
   * terminator does not start an extra empty line, and "" has no lines.
   */
  function SplitLines(s: string): (lines: seq<string>)
    ensures forall l :: l in lines ==> NoLineBreak(l)
    ensures s != [] <==> lines != []
    decreases |s|
  {
    if s == [] then []
    else
      var k := LineEnd(s);
      [s[..k]] + SplitLines(s[NextLine(s, k)..])
  }

  /** Where the line after a boundary at `k` starts: past `\r\n` as one, past any other boundary alone. */
  function NextLine(s: string, k: nat): (next: nat)
    requires k <= |s|
    ensures k <= next <= |s|
    ensures k < |s| ==> k < next
  {
    if k == |s| then |s|
    else if s[k] == '\r' && k + 1 < |s| && s[k + 1] == '\n' then k + 2
    else k + 1
  }

  /**
   * For text whose only line boundary is `\n`, joining the lines with `\n`
   * gives the text back, except for one final `\n`.
   */
  lemma {:induction false} SplitLinesJoin(s: string)
    requires OnlyNewlines(s)
    ensures Join("\n", SplitLines(s)) + LastNewline(s) == s
    decreases |s|
  {
    if s != [] {
      var k := LineEnd(s);
      if k == |s| {
        SplitLinesSingle(s);
      } else {
        SplitLinesAtNewline(s, k);
        SplitLinesJoin(s[k + 1..]);
        SplitLinesJoinAt(s, k, SplitLines(s), SplitLines(s[k + 1..]));
      }
    }
  }

  /** The `\n` that ends `s`, if there is one. */
  function LastNewline(s: string): string {
    if s != [] && s[|s| - 1] == '\n' then "\n" else ""
  }

  lemma SplitLinesJoinAt(s: string, k: nat, lines: seq<string>, restLines: seq<string>)
    requires k < |s| && s[k] == '\n'
    requires lines == [s[..k]] + restLines
    requires (s[k + 1..] == []) == (restLines == [])
    requires Join("\n", restLines) + LastNewline(s[k + 1..]) == s[k + 1..]
    ensures Join("\n", lines) + LastNewline(s) == s
  {
    var rest := s[k + 1..];
    if rest == [] {
      assert s == s[..k] + "\n";
    } else {
      assert LastNewline(s) == LastNewline(rest);
      JoinLinesStep(s[..k], restLines, LastNewline(rest), rest);
      assert s == s[..k] + "\n" + rest;
    }
  }

  lemma SplitLinesSingle(s: string)
    requires s != [] && LineEnd(s) == |s|
    ensures Join("\n", SplitLines(s)) == s && s[|s| - 1] != '\n'
  {
    assert s[..|s|] == s;
    assert s[|s| - 1] == s[..|s|][|s| - 1];
  }

  lemma JoinLinesStep(a: string, lines: seq<string>, end: string, rest: string)
    requires lines != [] && Join("\n", lines) + end == rest
    ensures Join("\n", [a] + lines) + end == a + "\n" + rest
  {
    JoinCons("\n", a, lines);
  }

  lemma SplitLinesAtNewline(s: string, k: nat)
    requires OnlyNewlines(s) && s != [] && k == LineEnd(s) && k < |s|
    ensures s[k] == '\n'
    ensures SplitLines(s) == [s[..k]] + SplitLines(s[k + 1..])
    ensures OnlyNewlines(s[k + 1..])
  {
    assert s[k] == '\n';
    SplitLinesAt(s, k);
    OnlyNewlinesSuffix(s, k + 1);
  }

  lemma SplitLinesAt(s: string, k: nat)
    requires s != [] && k == LineEnd(s) && k < |s| && s[k] == '\n'
    ensures SplitLines(s) == [s[..k]] + SplitLines(s[k + 1..])
  {
    assert NextLine(s, k) == k + 1;
  }

  lemma OnlyNewlinesSuffix(s: string, j: nat)
    requires OnlyNewlines(s) && j <= |s|
    ensures OnlyNewlines(s[j..])
  {
    var rest := s[j..];
    forall i | 0 <= i < |rest| && IsLineBreak(rest[i]) ensures rest[i] == '\n' {
      assert rest[i] == s[j + i];
    }
  }

  lemma JoinCons(sep: string, a: string, parts: seq<string>)
    requires parts != []
    ensures Join(sep, [a] + parts) == a + sep + Join(sep, parts)
  {
    assert ([a] + parts)[1..] == parts;
  }

  /** `\n` is the only line boundary in `s`. */
  predicate OnlyNewlines(s: string) {
    forall i :: 0 <= i < |s| && IsLineBreak(s[i]) ==> s[i] == '\n'
  }

  // ---------------------------------------------------------------- replace

  /** `s.replace(pat, rep)`: occurrences of `pat` are replaced left to right, without overlap. */
  function Replace(s: string, pat: string, rep: string): (r: string)
    requires pat != []
    ensures !Contains(s, pat) ==> r == s
    ensures |rep| <= |pat| ==> |r| <= |s|
    decreases |s|
  {
    if s == [] then []
    else if pat <= s then
      assert s[0..|pat|] == pat;
      rep + Replace(s[|pat|..], pat, rep)
    else
      assert !Contains(s, pat) ==> !Contains(s[1..], pat) by {
        if Contains(s[1..], pat) {
          var i :| OccursAt(s[1..], pat, i);
          OccursAtShift(s, pat, i);
        }
      }
      [s[0]] + Replace(s[1..], pat, rep)
  }

  /**
   * Where `pat` first occurs at `i`, the text before it is kept, `pat` becomes
   * `rep`, and the replacement goes on after the occurrence.
   */
  lemma {:induction false} ReplaceFirst(s: string, pat: string, rep: string, i: nat)
    requires pat != [] && OccursAt(s, pat, i)
    requires forall j :: 0 <= j < i ==> !OccursAt(s, pat, j)
    ensures Replace(s, pat, rep) == s[..i] + rep + Replace(s[i + |pat|..], pat, rep)
    decreases i
  {
    ReplaceKeepsPrefix(s, pat, rep, i);
    var rest := s[i..];
    PrefixOccurs(rest, pat);
    assert rest[..|pat|] == pat;
    ReplaceAtStart(rest, pat, rep);
    assert rest[|pat|..] == s[i + |pat|..];
  }

  /** Replacement leaves a prefix holding no occurrence of `pat` as it is. */
  lemma {:induction false} ReplaceKeepsPrefix(s: string, pat: string, rep: string, i: nat)
    requires pat != [] && i <= |s|
    requires forall j :: 0 <= j < i ==> !OccursAt(s, pat, j)
    ensures Replace(s, pat, rep) == s[..i] + Replace(s[i..], pat, rep)
    decreases i
  {
    if i == 0 {
      assert s[..0] + Replace(s[0..], pat, rep) == Replace(s, pat, rep);
    } else {
      PrefixOccurs(s, pat);
      ReplaceSkip(s, pat, rep);
      var t := s[1..];
      NoOccurrenceShift(s, pat, i);
      ReplaceKeepsPrefix(t, pat, rep, i - 1);
      assert t[i - 1..] == s[i..];
      HeadAndTake(s, i, Replace(t, pat, rep), Replace(s[i..], pat, rep));
    }
  }

  lemma NoOccurrenceShift(s: string, pat: string, i: nat)
    requires 0 < i <= |s|
    requires forall j :: 0 <= j < i ==> !OccursAt(s, pat, j)
    ensures forall j :: 0 <= j < i - 1 ==> !OccursAt(s[1..], pat, j)
  {
    forall j | 0 <= j < i - 1 ensures !OccursAt(s[1..], pat, j) {
      OccursAtShift(s, pat, j);
    }
  }

  lemma HeadAndTake(s: string, i: nat, x: string, after: string)
    requires 0 < i <= |s| && x == s[1..][..i - 1] + after
    ensures [s[0]] + x == s[..i] + after
  {
    assert [s[0]] + s[1..][..i - 1] == s[..i];
  }

  lemma ReplaceAtStart(s: string, pat: string, rep: string)
    requires pat != [] && pat <= s
    ensures Replace(s, pat, rep) == rep + Replace(s[|pat|..], pat, rep)
  {
  }

  lemma PrefixOccurs(s: string, pat: string)
    ensures pat <= s <==> OccursAt(s, pat, 0)
  {
    if pat <= s { assert s[0..|pat|] == pat; }
  }

  lemma ReplaceSkip(s: string, pat: string, rep: string)
    requires pat != [] && s != [] && !(pat <= s)
    ensures Replace(s, pat, rep) == [s[0]] + Replace(s[1..], pat, rep)
  {
  }

  /** Replacing one character by another replaces it at every position and changes nothing else. */
  lemma {:induction false} ReplaceCharAt(s: string, a: char, b: char)
    ensures |Replace(s, [a], [b])| == |s|
    ensures forall i :: 0 <= i < |s| ==> Replace(s, [a], [b])[i] == if s[i] == a then b else s[i]
    decreases |s|
  {
    if s != [] {
      ReplaceCharAt(s[1..], a, b);
      var r := Replace(s, [a], [b]);
      assert r == [if s[0] == a then b else s[0]] + Replace(s[1..], [a], [b]);
    }
  }

  // ---------------------------------------------------------------- ordering

  /** Python's `a <= b` on strings: lexicographic by code point, a prefix coming first. */
  predicate LexLe(a: string, b: string) {
    if a == [] then true
    else if b == [] then false
    else if a[0] != b[0] then a[0] < b[0]
    else LexLe(a[1..], b[1..])
  }

  lemma {:induction false} LexLeReflexive(a: string)
    ensures LexLe(a, a)
  {
    if a != [] { LexLeReflexive(a[1..]); }
  }

  lemma {:induction false} LexLeTotal(a: string, b: string)
    ensures LexLe(a, b) || LexLe(b, a)
  {
    if a != [] && b != [] && a[0] == b[0] { LexLeTotal(a[1..], b[1..]); }
  }

  lemma {:induction false} LexLeAntisymmetric(a: string, b: string)
    requires LexLe(a, b) && LexLe(b, a)
    ensures a == b
  {
    if a != [] && b != [] {
      LexLeAntisymmetric(a[1..], b[1..]);
      assert a == [a[0]] + a[1..] && b == [b[0]] + b[1..];
    }
  }

  lemma {:induction false} LexLeTransitive(a: string, b: string, c: string)
    requires LexLe(a, b) && LexLe(b, c)
    ensures LexLe(a, c)
  {
    if a != [] && b != [] && c != [] && a[0] == b[0] && b[0] == c[0] {
      LexLeTransitive(a[1..], b[1..], c[1..]);
    }
  }
}
