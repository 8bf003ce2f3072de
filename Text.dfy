/** The Python string builtins the core relies on, over `string` (a sequence of Unicode
    scalar values): `str.isspace`, `str.strip`, `str.lower`, `in` on strings,
    `str.startswith`, `str.splitlines`, `str.split(sep)`, `str.split(sep, 1)` and `sep.join`. */
module Text {

  /** `c.isspace()`: the 29 code points Python treats as whitespace
      (bidirectional class WS, B or S, or general category Zs). */
  predicate IsSpace(c: char)
  {
    ('\t' <= c <= '\r') || ('\U{1C}' <= c <= '\U{1F}') || c == ' ' || c == '\U{85}' ||
    c == '\U{A0}' || c == '\U{1680}' || ('\U{2000}' <= c <= '\U{200A}') ||
    c == '\U{2028}' || c == '\U{2029}' || c == '\U{202F}' || c == '\U{205F}' || c == '\U{3000}'
  }

  /** `any(ch.isspace() for ch in s)` */
  predicate HasSpace(s: string)
  {
    exists i :: 0 <= i < |s| && IsSpace(s[i])
  }

  /** The characters at which `str.splitlines` ends a line (`\r\n` counts once). */
  predicate IsLineBoundary(c: char)
  {
    ('\n' <= c <= '\r') || ('\U{1C}' <= c <= '\U{1E}') || c == '\U{85}' ||
    c == '\U{2028}' || c == '\U{2029}'
  }

  // ---------------------------------------------------------------------------
  // strip

  /** The first index at or after `i` that holds no whitespace, or `|s|`. */
  function SkipSpaces(s: string, i: nat): (r: nat)
    requires i <= |s|
    ensures i <= r <= |s|
    ensures forall k :: i <= k < r ==> IsSpace(s[k])
    ensures r < |s| ==> !IsSpace(s[r])
    decreases |s| - i
  {
    if i < |s| && IsSpace(s[i]) then SkipSpaces(s, i + 1) else i
  }

  /** The smallest end at or below `j`, but not below `lo`, past which only whitespace
      follows up to `j`. */
  function BackSpaces(s: string, j: nat, lo: nat): (r: nat)
    requires lo <= j <= |s|
    ensures lo <= r <= j
    ensures forall k :: r <= k < j ==> IsSpace(s[k])
    ensures r > lo ==> !IsSpace(s[r - 1])
    decreases j
  {
    if j > lo && IsSpace(s[j - 1]) then BackSpaces(s, j - 1, lo) else j
  }

  /** Where `s.strip()` starts and ends inside `s`. */
  function StripStart(s: string): nat
  {
    SkipSpaces(s, 0)
  }

  function StripEnd(s: string): (e: nat)
    ensures StripStart(s) <= e <= |s|
  {
    BackSpaces(s, |s|, StripStart(s))
  }

  /** `s.lstrip()` and `s.rstrip()` */
  function TrimLeft(s: string): string
  {
    s[StripStart(s)..]
  }

  function TrimRight(s: string): string
  {
    s[..BackSpaces(s, |s|, 0)]
  }

  /** `s.strip()`: the slice of `s` left once the whitespace at both ends is gone. */
  function Strip(s: string): string
  {
    s[StripStart(s)..StripEnd(s)]
  }

  /** The stripped text is the one slice of `s` with only whitespace outside it and no
      whitespace at its ends. */
  lemma StripUnique(s: string, i: nat, j: nat)
    requires i <= j <= |s|
    requires forall k :: 0 <= k < i ==> IsSpace(s[k])
    requires forall k :: j <= k < |s| ==> IsSpace(s[k])
    requires i < j ==> !IsSpace(s[i]) && !IsSpace(s[j - 1])
    ensures StripStart(s) == (if i < j then i else |s|)
    ensures Strip(s) == s[i..j]
  {
    var a := StripStart(s);
    if i < j {
      assert a == i;
      var e := StripEnd(s);
      assert e == j;
    } else {
      assert a == |s|;
    }
  }

  predicate AllSpaces(s: string)
  {
    forall k :: 0 <= k < |s| ==> IsSpace(s[k])
  }

  /** Stripping a solid text padded with whitespace gives the text back. */
  lemma StripPadded(a: string, w: string, b: string)
    requires AllSpaces(a) && AllSpaces(b)
    requires w != [] && !IsSpace(w[0]) && !IsSpace(w[|w| - 1])
    ensures Strip(a + w + b) == w
  {
    var s := a + w + b;
    assert forall k :: 0 <= k < |a| ==> s[k] == a[k];
    assert forall k :: |a| + |w| <= k < |s| ==> s[k] == b[k - |a| - |w|];
    assert s[|a|] == w[0] && s[|a| + |w| - 1] == w[|w| - 1];
    StripUnique(s, |a|, |a| + |w|);
    assert s[|a|..|a| + |w|] == w;
  }

  /** `not s.strip()`: the stripped text is empty exactly when every character is whitespace. */
  lemma StripEmptyIff(s: string)
    ensures Strip(s) == [] <==> forall i :: 0 <= i < |s| ==> IsSpace(s[i])
  {
    if StripStart(s) < StripEnd(s) {
      assert !IsSpace(s[StripStart(s)]);
    }
  }

  /** The stripped text has no whitespace at its ends. */
  lemma StripEnds(s: string)
    ensures Strip(s) != [] ==> !IsSpace(Strip(s)[0]) && !IsSpace(Strip(s)[|Strip(s)| - 1])
  {
  }

  /** Stripping is idempotent: `s.strip().strip() == s.strip()`. */
  lemma StripIdempotent(s: string)
    ensures Strip(Strip(s)) == Strip(s)
  {
    var r := Strip(s);
    StripUnique(r, 0, |r|);
  }

  /** Stripping after trimming either end is stripping. */
  lemma StripTrimLeft(s: string)
    ensures Strip(TrimLeft(s)) == Strip(s)
  {
    var a, e, t := StripStart(s), StripEnd(s), TrimLeft(s);
    StripUnique(t, 0, e - a);
    assert t[0..e - a] == s[a..e];
  }

  lemma StripTrimRight(s: string)
    ensures Strip(TrimRight(s)) == Strip(s)
  {
    var a, e, t := StripStart(s), StripEnd(s), TrimRight(s);
    var n := BackSpaces(s, |s|, 0);
    if a < e {
      assert e <= n;
      StripUnique(t, a, e);
      assert t[a..e] == s[a..e];
    } else {
      assert n == 0;
    }
  }

  /** Whitespace at the ends never reaches past a non-whitespace character: stripping
      `a + [c] + b` with `c` not whitespace keeps a left-stripped `a` on the left and a
      right-stripped `b` on the right of `c`. */
  lemma StripAround(a: string, c: char, b: string)
    requires !IsSpace(c)
    ensures Strip(a + [c] + b) == TrimLeft(a) + [c] + TrimRight(b)
  {
    var s := a + [c] + b;
    var i, n := StripStart(a), BackSpaces(b, |b|, 0);
    var j := |a| + 1 + n;
    assert forall k :: 0 <= k < i ==> IsSpace(s[k]) by {
      assert forall k :: 0 <= k < i ==> s[k] == a[k];
    }
    assert forall k :: j <= k < |s| ==> IsSpace(s[k]) by {
      assert forall k :: j <= k < |s| ==> s[k] == b[k - |a| - 1];
    }
    assert !IsSpace(s[i]) by {
      assert s[i] == if i < |a| then a[i] else c;
    }
    assert !IsSpace(s[j - 1]) by {
      assert s[j - 1] == if n > 0 then b[n - 1] else c;
    }
    StripUnique(s, i, j);
    assert s[i..j] == a[i..] + [c] + b[..n];
  }

  // ---------------------------------------------------------------------------
  // lower

  /** `str.lower` on one character, for the ASCII letters. */
  function LowerChar(c: char): char
  {
    if 'A' <= c <= 'Z' then (c as int + 32) as char else c
  }

  function Lower(s: string): (r: string)
    ensures |r| == |s|
    ensures forall i :: 0 <= i < |s| ==> r[i] == LowerChar(s[i])
  {
    seq(|s|, i requires 0 <= i < |s| => LowerChar(s[i]))
  }

  lemma LowerKeepsSpace(c: char)
    ensures IsSpace(LowerChar(c)) <==> IsSpace(c)
  {
  }

  /** Two texts of one length with whitespace at the same positions. */
  predicate SameSpaces(s: string, t: string)
  {
    |s| == |t| && forall k :: 0 <= k < |s| ==> (IsSpace(s[k]) <==> IsSpace(t[k]))
  }

  lemma SkipSameSpaces(s: string, t: string, i: nat)
    requires SameSpaces(s, t) && i <= |s|
    ensures SkipSpaces(s, i) == SkipSpaces(t, i)
    decreases |s| - i
  {
    if i < |s| && IsSpace(s[i]) {
      SkipSameSpaces(s, t, i + 1);
    }
  }

  lemma BackSameSpaces(s: string, t: string, j: nat, lo: nat)
    requires SameSpaces(s, t) && lo <= j <= |s|
    ensures BackSpaces(s, j, lo) == BackSpaces(t, j, lo)
    decreases j
  {
    if j > lo && IsSpace(s[j - 1]) {
      BackSameSpaces(s, t, j - 1, lo);
    }
  }

  lemma LowerSameSpaces(s: string)
    ensures SameSpaces(s, Lower(s))
  {
    var t := Lower(s);
    forall k | 0 <= k < |s| ensures IsSpace(s[k]) <==> IsSpace(t[k]) {
      LowerKeepsSpace(s[k]);
    }
  }

  lemma LowerSlice(s: string, a: nat, e: nat)
    requires a <= e <= |s|
    ensures Lower(s[a..e]) == Lower(s)[a..e]
  {
    var u := s[a..e];
    var l, t := Lower(u), Lower(s);
    forall k | 0 <= k < |u| ensures l[k] == t[a + k] {
      assert u[k] == s[a + k];
    }
    assert l == t[a..e];
  }

  /** Lower-casing commutes with stripping, since it maps whitespace to whitespace and
      nothing else to whitespace. */
  lemma LowerStrip(s: string)
    ensures Lower(Strip(s)) == Strip(Lower(s))
  {
    var t := Lower(s);
    LowerSameSpaces(s);
    SkipSameSpaces(s, t, 0);
    BackSameSpaces(s, t, |s|, StripStart(s));
    LowerSlice(s, StripStart(s), StripEnd(s));
  }

  // ---------------------------------------------------------------------------
  // `w in s`, `s.startswith(w)`

  predicate OccursAt(s: string, w: string, i: nat)
  {
    i + |w| <= |s| && s[i..i + |w|] == w
  }

  /** `s.startswith(w)` */
  predicate StartsWith(s: string, w: string)
  {
    |w| <= |s| && s[..|w|] == w
  }

  /** `w in s`, searched from the left. */
  function Contains(s: string, w: string): (r: bool)
    ensures r <==> exists i: nat :: OccursAt(s, w, i)
  {
    if StartsWith(s, w) then
      assert OccursAt(s, w, 0);
      true
    else if s == [] then
      false
    else
      var r := Contains(s[1..], w);
      assert forall i: nat :: OccursAt(s[1..], w, i) <==> OccursAt(s, w, i + 1) by {
        forall i: nat ensures OccursAt(s[1..], w, i) <==> OccursAt(s, w, i + 1) {
          if i + 1 + |w| <= |s| { assert s[1..][i..i + |w|] == s[i + 1..i + 1 + |w|]; }
        }
      }
      assert OccursAt(s, w, 0) ==> StartsWith(s, w);
      assert forall i: nat :: OccursAt(s, w, i) && i > 0 ==> OccursAt(s[1..], w, i - 1);
      r
  }

  /** An occurrence in a text is still there once more text follows. */
  lemma OccursInPrefix(s: string, t: string, w: string, i: nat)
    requires OccursAt(s, w, i)
    ensures OccursAt(s + t, w, i)
  {
    assert (s + t)[i..i + |w|] == s[i..i + |w|];
  }

  /** A word with no whitespace at its ends occurs in the stripped text exactly when it
      occurs in the text itself. */
  lemma ContainsStrip(s: string, w: string)
    requires w != [] && !IsSpace(w[0]) && !IsSpace(w[|w| - 1])
    ensures Contains(Strip(s), w) <==> Contains(s, w)
  {
    if Contains(Strip(s), w) {
      var i: nat :| OccursAt(Strip(s), w, i);
      OccursInStrip(s, w, i);
    }
    if Contains(s, w) {
      var i: nat :| OccursAt(s, w, i);
      OccursInText(s, w, i);
    }
  }

  lemma OccursInStrip(s: string, w: string, i: nat)
    requires OccursAt(Strip(s), w, i)
    ensures OccursAt(s, w, StripStart(s) + i)
  {
    var r, a, e := Strip(s), StripStart(s), StripEnd(s);
    assert r == s[a..e];
    assert forall j :: i <= j < i + |w| ==> r[j] == s[a + j];
    assert s[a + i..a + i + |w|] == r[i..i + |w|];
  }

  lemma OccursInText(s: string, w: string, i: nat)
    requires w != [] && !IsSpace(w[0]) && !IsSpace(w[|w| - 1])
    requires OccursAt(s, w, i)
    ensures StripStart(s) <= i && OccursAt(Strip(s), w, i - StripStart(s))
  {
    var r, a, e := Strip(s), StripStart(s), StripEnd(s);
    var last := i + |w| - 1;
    assert s[i] == w[0] && s[last] == w[|w| - 1] by {
      assert s[i..i + |w|][0] == s[i];
      assert s[i..i + |w|][|w| - 1] == s[last];
    }
    assert a <= i;
    assert i + |w| <= e;
    var inR, inS := r[i - a..i - a + |w|], s[i..i + |w|];
    forall k | 0 <= k < |w| ensures inR[k] == inS[k] {
      assert inR[k] == s[i + k];
    }
    assert inR == inS;
  }

  // ---------------------------------------------------------------------------
  // first occurrence of a character; `s.split(sep, 1)`, `s.split(sep)`, `sep.join(parts)`

  function IndexOf(s: string, c: char): (i: nat)
    requires c in s
    ensures i < |s| && s[i] == c && c !in s[..i]
  {
    if s[0] == c then 0 else
      assert c in s[1..] by { var k :| 0 <= k < |s| && s[k] == c; assert s[1..][k - 1] == c; }
      var j := IndexOf(s[1..], c);
      assert s[..j + 1] == [s[0]] + s[1..][..j];
      j + 1
  }

  /** The text before the first `c` (the left part of `s.split(c, 1)`). */
  function Before(s: string, c: char): string
    requires c in s
  {
    s[..IndexOf(s, c)]
  }

  /** The text after the first `c` (the right part of `s.split(c, 1)`). */
  function After(s: string, c: char): string
    requires c in s
  {
    s[IndexOf(s, c) + 1..]
  }

  lemma BeforeAfter(s: string, c: char)
    requires c in s
    ensures s == Before(s, c) + [c] + After(s, c) && c !in Before(s, c)
  {
  }

  /** Splitting at the first separator of `a + [c] + b`, where `a` has none, gives back `a` and `b`. */
  lemma SplitFirstOf(a: string, c: char, b: string)
    ensures c in a + [c] + b
    ensures c !in a ==> Before(a + [c] + b, c) == a && After(a + [c] + b, c) == b
  {
    var s := a + [c] + b;
    assert s[|a|] == c;
    if c !in a {
      assert s[..|a|] == a;
      assert s[|a| + 1..] == b;
      assert IndexOf(s, c) == |a|;
    }
  }

  /** `s.split(sep)` */
  function SplitOn(s: string, sep: char): (parts: seq<string>)
    ensures |parts| >= 1
    decreases |s|
  {
    if sep !in s then [s] else [Before(s, sep)] + SplitOn(After(s, sep), sep)
  }

  /** `sep.join(parts)` */
  function Join(parts: seq<string>, sep: char): string
    requires |parts| >= 1
  {
    if |parts| == 1 then parts[0] else parts[0] + [sep] + Join(parts[1..], sep)
  }

  /** `sep.join(s.split(sep)) == s` */
  lemma {:induction false} JoinSplit(s: string, sep: char)
    ensures Join(SplitOn(s, sep), sep) == s
    decreases |s|
  {
    if sep in s {
      var parts := SplitOn(s, sep);
      JoinSplit(After(s, sep), sep);
      assert parts[1..] == SplitOn(After(s, sep), sep);
      BeforeAfter(s, sep);
    }
  }

  /** `len(s.split(sep)) >= 2` exactly when `sep` occurs in `s`, and then
      `sep.join(s.split(sep)[1:])` is everything after the first separator. */
  lemma SplitTailIsAfter(s: string, sep: char)
    ensures |SplitOn(s, sep)| >= 2 <==> sep in s
    ensures sep in s ==> Join(SplitOn(s, sep)[1..], sep) == After(s, sep)
  {
    if sep in s {
      assert SplitOn(s, sep)[1..] == SplitOn(After(s, sep), sep);
      JoinSplit(After(s, sep), sep);
    }
  }

  // ---------------------------------------------------------------------------
  // `s.splitlines()`

  /** Index of the first line boundary, or `|s|`. */
  function LineEnd(s: string): (i: nat)
    ensures i <= |s| && (i < |s| ==> IsLineBoundary(s[i]))
    ensures forall j :: 0 <= j < i ==> !IsLineBoundary(s[j])
  {
    if s == [] || IsLineBoundary(s[0]) then 0 else LineEnd(s[1..]) + 1
  }

  /** `s.splitlines()`: the lines without their terminators; a final terminator does not
      start an extra empty line, and `\r\n` ends one line. */
  function SplitLines(s: string): (lines: seq<string>)
    ensures forall k, j :: 0 <= k < |lines| && 0 <= j < |lines[k]| ==> !IsLineBoundary(lines[k][j])
    decreases |s|
  {
    if s == [] then []
    else
      var i := LineEnd(s);
      if i == |s| then [s]
      else
        var next := if s[i] == '\r' && i + 1 < |s| && s[i + 1] == '\n' then i + 2 else i + 1;
        [s[..i]] + SplitLines(s[next..])
  }

  predicate NoLineBoundary(s: string)
  {
    forall j :: 0 <= j < |s| ==> !IsLineBoundary(s[j])
  }

  /** A line without boundaries ends at the boundary that follows it, or at the end. */
  lemma {:induction false} LineEndAfter(a: string, b: string)
    requires NoLineBoundary(a)
    requires b == [] || IsLineBoundary(b[0])
    ensures LineEnd(a + b) == |a|
    decreases |a|
  {
    if a == [] {
      assert a + b == b;
    } else {
      assert (a + b)[1..] == a[1..] + b;
      LineEndAfter(a[1..], b);
    }
  }

  /** `"\n".join(lines).splitlines() == lines` for lines without line boundaries whose last
      line is not empty. */
  lemma {:induction false} SplitLinesJoin(lines: seq<string>)
    requires lines != [] && lines[|lines| - 1] != []
    requires forall k :: 0 <= k < |lines| ==> NoLineBoundary(lines[k])
    ensures SplitLines(Join(lines, '\n')) == lines
    decreases |lines|
  {
    var s := Join(lines, '\n');
    if |lines| == 1 {
      LineEndAfter(s, []);
      assert s + [] == s;
    } else {
      var rest := Join(lines[1..], '\n');
      assert s == lines[0] + ("\n" + rest);
      LineEndAfter(lines[0], "\n" + rest);
      assert s[..|lines[0]|] == lines[0];
      assert s[|lines[0]| + 1..] == rest;
      SplitLinesJoin(lines[1..]);
    }
  }
}
