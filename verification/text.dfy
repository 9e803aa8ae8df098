/**
 * The Python `str` operations the REPL relies on, over `string` = `seq<char>`:
 * `isspace` / the regular-expression class `\s`, `splitlines`, `lower`,
 * `startswith`, the substring test `in`, `replace`, `strip` and `join`.
 */
module Text {

  /** Python's `str.isspace` for one character; the `\s` class of a `str`
      regular expression matches exactly these characters. */
  predicate IsWhitespace(c: char) {
    var n := c as int;
    || (0x09 <= n <= 0x0D) || (0x1C <= n <= 0x20)
    || n == 0x85 || n == 0xA0 || n == 0x1680
    || (0x2000 <= n <= 0x200A)
    || n == 0x2028 || n == 0x2029 || n == 0x202F || n == 0x205F || n == 0x3000
  }

  /** The line boundaries recognised by `str.splitlines` (`\r\n` is handled
      as one boundary by `SplitLines`). */
  predicate IsLineBreak(c: char) {
    var n := c as int;
    || (0x0A <= n <= 0x0D) || (0x1C <= n <= 0x1E)
    || n == 0x85 || n == 0x2028 || n == 0x2029
  }

  /** `s` does not begin with whitespace. */
  predicate StartsClean(s: string) {
    s == [] || !IsWhitespace(s[0])
  }

  /** `s` does not end with whitespace. */
  predicate EndsClean(s: string) {
    s == [] || !IsWhitespace(s[|s| - 1])
  }

  /** No character of `s` is whitespace. */
  predicate HasNoWhitespace(s: string) {
    forall k :: 0 <= k < |s| ==> !IsWhitespace(s[k])
  }

  /** Two strings without whitespace concatenate to one without. */
  lemma NoWhitespaceConcat(a: string, b: string)
    requires HasNoWhitespace(a) && HasNoWhitespace(b)
    ensures HasNoWhitespace(a + b)
  {
    var w := a + b;
    forall k | 0 <= k < |w| ensures !IsWhitespace(w[k]) {
      if k >= |a| {
        assert w[k] == b[k - |a|];
      }
    }
  }

  // ---------------------------------------------------------------------
  // lower, startswith, in
  // ---------------------------------------------------------------------

  function LowerChar(c: char): char {
    if 'A' <= c <= 'Z' then (c as int + 32) as char else c
  }

  /** `str.lower`, restricted to the ASCII letters. */
  function Lower(s: string): (r: string)
    ensures |r| == |s|
    ensures forall k :: 0 <= k < |s| ==> r[k] == LowerChar(s[k])
  {
    seq(|s|, k requires 0 <= k < |s| => LowerChar(s[k]))
  }

  /** `s.startswith(prefix)`. */
  predicate StartsWith(s: string, prefix: string) {
    |prefix| <= |s| && s[..|prefix|] == prefix
  }

  /** The substring test `sub in s`. */
  predicate Contains(s: string, sub: string)
    decreases |s|
  {
    StartsWith(s, sub) || (s != [] && Contains(s[1..], sub))
  }

  /** `sub` occurs in `s` at position `i`. */
  predicate OccursAt(s: string, sub: string, i: int) {
    0 <= i && i + |sub| <= |s| && s[i..i + |sub|] == sub
  }

  /** The substring test holds exactly when `sub` occurs at some position. */
  lemma ContainsIff(s: string, sub: string)
    ensures Contains(s, sub) <==> exists i :: OccursAt(s, sub, i)
  {
    if Contains(s, sub) {
      var i := ContainsWitness(s, sub);
    } else {
      forall i | OccursAt(s, sub, i) ensures false {
        ContainsAt(s, sub, i);
      }
    }
  }

  /** A position where `sub` occurs, when the substring test holds. */
  lemma {:induction false} ContainsWitness(s: string, sub: string) returns (i: nat)
    requires Contains(s, sub)
    ensures OccursAt(s, sub, i)
    decreases |s|
  {
    if StartsWith(s, sub) {
      i := 0;
    } else {
      var j := ContainsWitness(s[1..], sub);
      assert s[1..][j..j + |sub|] == s[j + 1..j + 1 + |sub|];
      i := j + 1;
    }
  }

  /** An occurrence at some position makes the substring test hold. */
  lemma {:induction false} ContainsAt(s: string, sub: string, i: nat)
    requires i + |sub| <= |s| && s[i..i + |sub|] == sub
    ensures Contains(s, sub)
  {
    if i > 0 {
      assert s[1..][i - 1..i - 1 + |sub|] == s[i..i + |sub|];
      ContainsAt(s[1..], sub, i - 1);
    }
  }

  // ---------------------------------------------------------------------
  // replace
  // ---------------------------------------------------------------------

  /** `s.replace(c, t)` for a one-character pattern `c`. */
  function Replace(s: string, c: char, t: string): (r: string)
    ensures c !in s ==> r == s
    ensures c !in t ==> c !in r
    ensures forall x :: x in r ==> (x in s && x != c) || x in t
    ensures |s| == 1 ==> r == (if s[0] == c then t else s)
    decreases |s|
  {
    if s == [] then []
    else
      var r := (if s[0] == c then t else [s[0]]) + Replace(s[1..], c, t);
      assert |s| == 1 ==> s[1..] == [] && s == [s[0]];
      r
  }

  /** Replacing distributes over concatenation. */
  lemma {:induction false} ReplaceAppend(s: string, u: string, c: char, t: string)
    ensures Replace(s + u, c, t) == Replace(s, c, t) + Replace(u, c, t)
    decreases |s|
  {
    if s == [] {
      assert s + u == u;
    } else {
      assert (s + u)[0] == s[0] && (s + u)[1..] == s[1..] + u;
      ReplaceAppend(s[1..], u, c, t);
    }
  }

  // ---------------------------------------------------------------------
  // strip
  // ---------------------------------------------------------------------

  /** `s.lstrip()`: drops the leading whitespace. */
  function TrimStart(s: string): (r: string)
    ensures StartsClean(r) && |r| <= |s|
    decreases |s|
  {
    if s != [] && IsWhitespace(s[0]) then TrimStart(s[1..]) else s
  }

  /** What `lstrip` drops is whitespace, and what it keeps is a suffix. */
  lemma {:induction false} TrimStartDropsWhitespace(s: string)
    ensures var r := TrimStart(s);
      && r == s[|s| - |r|..]
      && forall k :: 0 <= k < |s| - |r| ==> IsWhitespace(s[k])
    decreases |s|
  {
    if s != [] && IsWhitespace(s[0]) {
      TrimStartDropsWhitespace(s[1..]);
    }
  }

  /** `s.rstrip()`: drops the trailing whitespace. */
  function TrimEnd(s: string): (r: string)
    ensures EndsClean(r) && |r| <= |s|
    decreases |s|
  {
    if s != [] && IsWhitespace(s[|s| - 1]) then TrimEnd(s[..|s| - 1]) else s
  }

  /** What `rstrip` drops is whitespace, and what it keeps is a prefix. */
  lemma {:induction false} TrimEndDropsWhitespace(s: string)
    ensures var r := TrimEnd(s);
      && r == s[..|r|]
      && forall k :: |r| <= k < |s| ==> IsWhitespace(s[k])
    decreases |s|
  {
    if s != [] && IsWhitespace(s[|s| - 1]) {
      TrimEndDropsWhitespace(s[..|s| - 1]);
    }
  }

  /** `s.strip()`: the longest inner slice of `s` with whitespace at neither end. */
  function Strip(s: string): (r: string)
    ensures StartsClean(r) && EndsClean(r)
    ensures |r| <= |s|
    ensures forall x :: x in r ==> x in s
  {
    var t := TrimStart(s);
    var r := TrimEnd(t);
    TrimStartDropsWhitespace(s);
    TrimEndDropsWhitespace(t);
    assert r == [] || r[0] == t[0];
    r
  }

  /** `strip()` keeps one slice of its input and everything it removes on
      either side is whitespace. */
  lemma StripDropsWhitespace(s: string)
    ensures var r, i := Strip(s), |s| - |TrimStart(s)|;
      && i + |r| <= |s|
      && r == s[i..i + |r|]
      && (forall k :: 0 <= k < i ==> IsWhitespace(s[k]))
      && (forall k :: i + |r| <= k < |s| ==> IsWhitespace(s[k]))
  {
    var t := TrimStart(s);
    var i := |s| - |t|;
    TrimStartDropsWhitespace(s);
    TrimEndDropsWhitespace(t);
    var r := TrimEnd(t);
    assert r == s[i..i + |r|];
    forall k | i + |r| <= k < |s| ensures IsWhitespace(s[k]) {
      assert s[k] == t[k - i];
    }
  }

  /** A string with whitespace at neither end is its own `strip()`. */
  lemma StripClean(s: string)
    requires StartsClean(s) && EndsClean(s)
    ensures Strip(s) == s
  {
    assert TrimStart(s) == s;
  }

  // ---------------------------------------------------------------------
  // join and splitlines
  // ---------------------------------------------------------------------

  /** `sep.join(parts)`. */
  function Join(parts: seq<string>, sep: string): string {
    if |parts| == 0 then ""
    else if |parts| == 1 then parts[0]
    else parts[0] + sep + Join(parts[1..], sep)
  }

  /** The first line boundary of `s` at or after `from`, or `|s|`. */
  function FirstBreak(s: string, from: nat): (r: nat)
    requires from <= |s|
    ensures from <= r <= |s|
    ensures r < |s| ==> IsLineBreak(s[r])
    ensures forall k :: from <= k < r ==> !IsLineBreak(s[k])
    decreases |s| - from
  {
    if from == |s| then |s|
    else if IsLineBreak(s[from]) then from
    else FirstBreak(s, from + 1)
  }

  /** No character of `s` is a line boundary. */
  predicate IsLine(s: string) {
    forall k :: 0 <= k < |s| ==> !IsLineBreak(s[k])
  }

  /** `str.splitlines()` (without `keepends`): the lines between boundaries;
      a final boundary does not start an empty last line. */
  function SplitLines(s: string): (r: seq<string>)
    ensures s == "" <==> r == []
    ensures forall k :: 0 <= k < |r| ==> IsLine(r[k])
    decreases |s|
  {
    if s == "" then []
    else
      var i := FirstBreak(s, 0);
      if i == |s| then [s]
      else
        var next := if s[i] == '\r' && i + 1 < |s| && s[i + 1] == '\n' then i + 2 else i + 1;
        [s[..i]] + SplitLines(s[next..])
  }

  /** Lines joined with `\n` split back into the same lines, provided the
      last one is not empty (a trailing empty line leaves no trace). */
  lemma {:induction false} SplitLinesJoin(lines: seq<string>)
    requires |lines| >= 1 && lines[|lines| - 1] != ""
    requires forall k :: 0 <= k < |lines| ==> IsLine(lines[k])
    ensures SplitLines(Join(lines, "\n")) == lines
  {
    var s := Join(lines, "\n");
    var first := lines[0];
    if |lines| == 1 {
      assert FirstBreak(s, 0) == |s|;
    } else {
      var rest := Join(lines[1..], "\n");
      assert s == first + "\n" + rest;
      assert s[|first|] == '\n';
      assert FirstBreak(s, 0) == |first|;
      assert s[|first| + 1..] == rest;
      assert s[..|first|] == first;
      assert lines[1..][|lines[1..]| - 1] == lines[|lines| - 1];
      SplitLinesJoin(lines[1..]);
      assert lines == [first] + lines[1..];
    }
  }

  /** A final `\n` after lines does not start an empty last line. */
  lemma {:induction false} SplitLinesTrailingBreak(lines: seq<string>)
    requires |lines| >= 1
    requires forall k :: 0 <= k < |lines| ==> IsLine(lines[k])
    ensures SplitLines(Join(lines, "\n") + "\n") == lines
  {
    var s := Join(lines, "\n") + "\n";
    var first := lines[0];
    assert s[|first|] == '\n';
    assert FirstBreak(s, 0) == |first|;
    assert s[..|first|] == first;
    if |lines| == 1 {
      assert s[|first| + 1..] == "";
    } else {
      var rest := Join(lines[1..], "\n");
      assert s == first + "\n" + (rest + "\n");
      assert s[|first| + 1..] == rest + "\n";
      SplitLinesTrailingBreak(lines[1..]);
      assert lines == [first] + lines[1..];
    }
  }

  /** `\r\n` is a single line boundary. */
  lemma SplitLinesCRLF(a: string, b: string)
    requires IsLine(a)
    ensures SplitLines(a + "\r\n" + b) == [a] + SplitLines(b)
  {
    var s := a + "\r\n" + b;
    assert s[|a|] == '\r' && s[|a| + 1] == '\n';
    assert FirstBreak(s, 0) == |a|;
    assert s[..|a|] == a;
    assert s[|a| + 2..] == b;
  }

  /** Every other boundary (a lone `\r`, `\x0b`, `\x0c`, `\x1c`-`\x1e`,
      `\x85`, U+2028, U+2029, or `\n`) is one character wide: the line
      before it is cut off and the text after it is split on its own. */
  lemma SplitLinesAtBreak(a: string, c: char, b: string)
    requires IsLine(a) && IsLineBreak(c)
    requires c == '\r' ==> b == [] || b[0] != '\n'
    ensures SplitLines(a + [c] + b) == [a] + SplitLines(b)
  {
    var s := a + [c] + b;
    assert s[|a|] == c;
    assert FirstBreak(s, 0) == |a|;
    assert s[..|a|] == a;
    assert s[|a| + 1..] == b;
  }

  /** Text without a boundary is one line. */
  lemma SplitLinesOneLine(s: string)
    requires s != "" && IsLine(s)
    ensures SplitLines(s) == [s]
  {
    assert FirstBreak(s, 0) == |s|;
  }
}
