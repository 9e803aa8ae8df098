/**
 * The REPL's tokenizer, `re.split('\s{2,}', line)`: a line is cut at every
 * maximal run of two or more whitespace characters; single whitespace
 * characters stay inside the tokens ("segments").
 */
module Lexer {
  import opened Text

  /** The separator the REPL uses whenever it rebuilds a line from segments. */
  const Delimiter: string := "    "

  /** Two whitespace characters in a row start at position `i` of `s`. */
  predicate PairAt(s: string, i: int) {
    0 <= i && i + 1 < |s| && IsWhitespace(s[i]) && IsWhitespace(s[i + 1])
  }

  /** `s` holds no two adjacent whitespace characters, so the pattern
      `\s{2,}` does not match anywhere in it. */
  predicate NoPair(s: string) {
    forall i :: 0 <= i < |s| ==> !PairAt(s, i)
  }

  /** Two whitespace-free words around a single space hold no pair. */
  lemma NoPairAroundSpace(a: string, b: string)
    requires HasNoWhitespace(a) && HasNoWhitespace(b)
    ensures NoPair(a + " " + b)
  {
    var s := a + " " + b;
    forall i | 0 <= i < |s| ensures !PairAt(s, i) {
      if i < |a| {
        assert s[i] == a[i];
      } else if i > |a| {
        assert s[i] == b[i - |a| - 1];
      } else if i + 1 < |s| {
        assert s[i + 1] == b[0];
      }
    }
  }

  /** A string the pattern `\s{2,}` matches as a whole. */
  predicate IsDelimiter(sep: string) {
    |sep| >= 2 && forall k :: 0 <= k < |sep| ==> IsWhitespace(sep[k])
  }

  /** Where the leftmost match of `\s{2,}` at or after `from` starts (or `|s|`). */
  function FirstPair(s: string, from: nat): (r: nat)
    requires from <= |s|
    ensures from <= r <= |s|
    ensures r < |s| ==> PairAt(s, r)
    ensures forall k :: from <= k < r ==> !PairAt(s, k)
    decreases |s| - from
  {
    if from == |s| then |s|
    else if PairAt(s, from) then from
    else FirstPair(s, from + 1)
  }

  /** Where a greedy whitespace run starting at `from` stops. */
  function RunEnd(s: string, from: nat): (r: nat)
    requires from <= |s|
    ensures from <= r <= |s|
    ensures r < |s| ==> !IsWhitespace(s[r])
    ensures forall k :: from <= k < r ==> IsWhitespace(s[k])
    decreases |s| - from
  {
    if from == |s| || !IsWhitespace(s[from]) then from
    else RunEnd(s, from + 1)
  }

  /** `re.split('\s{2,}', s)`: the leftmost match is taken greedily, the
      segment before it is emitted and the scan resumes after it. */
  function Split(s: string): (r: seq<string>)
    ensures |r| >= 1
    decreases |s|
  {
    var i := FirstPair(s, 0);
    if i == |s| then [s]
    else
      var j := RunEnd(s, i);
      [s[..i]] + Split(s[j..])
  }

  /** The shape of every result of `Split`: no segment contains a pair of
      whitespace characters, a segment that follows a delimiter starts
      clean, one that precedes a delimiter ends clean, and only the first
      and the last segment may be empty. */
  predicate WellSplit(segs: seq<string>) {
    && |segs| >= 1
    && (forall k :: 0 <= k < |segs| ==> NoPair(segs[k]))
    && (forall k :: 0 < k < |segs| ==> StartsClean(segs[k]))
    && (forall k :: 0 <= k < |segs| - 1 ==> EndsClean(segs[k]))
    && (forall k :: 0 < k < |segs| - 1 ==> segs[k] != [])
  }

  /** The segments after the first of a well-formed split are well formed. */
  lemma WellSplitTail(segs: seq<string>)
    requires WellSplit(segs) && |segs| >= 2
    ensures WellSplit(segs[1..])
  {
    var rest := segs[1..];
    forall k | 0 < k < |rest| - 1 ensures rest[k] != [] {
      assert rest[k] == segs[k + 1];
    }
  }

  /** The leftmost match position does not change when text is appended
      after a match that was already found. */
  lemma FirstPairExtend(s: string, u: string, from: nat)
    requires from <= |s| && FirstPair(s, from) < |s|
    ensures FirstPair(s + u, from) == FirstPair(s, from)
  {
    var i, i' := FirstPair(s, from), FirstPair(s + u, from);
    assert PairAt(s + u, i);
    forall k | from <= k < i ensures !PairAt(s + u, k) {
      assert !PairAt(s, k);
      assert (s + u)[k] == s[k] && (s + u)[k + 1] == s[k + 1];
    }
  }

  /** A whitespace run that already stopped inside `s` stops at the same
      place when text is appended. */
  lemma RunEndExtend(s: string, u: string, from: nat)
    requires from <= |s| && RunEnd(s, from) < |s|
    ensures RunEnd(s + u, from) == RunEnd(s, from)
  {
    var j, j' := RunEnd(s, from), RunEnd(s + u, from);
    assert forall k :: from <= k <= j ==> (s + u)[k] == s[k];
  }

  /** A string free of pairs, followed by a delimiter: the first match
      is the delimiter. */
  lemma FirstPairAtDelimiter(s: string, sep: string, t: string)
    requires NoPair(s) && EndsClean(s) && IsDelimiter(sep)
    ensures FirstPair(s + sep + t, 0) == |s|
  {
    var w := s + sep + t;
    var i := FirstPair(w, 0);
    assert PairAt(w, |s|) by {
      assert w[|s|] == sep[0] && w[|s| + 1] == sep[1];
    }
    forall k | 0 <= k < |s| ensures !PairAt(w, k) {
      assert w[k] == s[k];
      if k + 1 < |s| {
        assert !PairAt(s, k);
        assert w[k + 1] == s[k + 1];
      }
    }
  }

  /** A delimiter followed by a string that starts clean: the run is the
      delimiter exactly. */
  lemma RunEndAfterDelimiter(s: string, sep: string, t: string)
    requires IsDelimiter(sep) && StartsClean(t)
    ensures RunEnd(s + sep + t, |s|) == |s| + |sep|
  {
    var w := s + sep + t;
    var j := RunEnd(w, |s|);
    assert forall k :: |s| <= k < |s| + |sep| ==> w[k] == sep[k - |s|];
    assert t != [] ==> w[|s| + |sep|] == t[0];
  }

  /** Splitting `s + sep + t` at a delimiter between a string that ends
      clean and one that starts clean splits the two halves separately. */
  lemma {:induction false} SplitConcat(s: string, sep: string, t: string)
    requires IsDelimiter(sep) && EndsClean(s) && StartsClean(t)
    ensures Split(s + sep + t) == Split(s) + Split(t)
    decreases |s|
  {
    var i := FirstPair(s, 0);
    if i == |s| {
      SplitConcatLast(s, sep, t);
    } else {
      var j := RunEnd(s, i);
      SplitConcatStep(s, sep, t);
      SplitConcat(s[j..], sep, t);
      PrependSegment(s[..i], Split(s), Split(s[j..]),
        Split(s + sep + t), Split(s[j..] + sep + t), Split(t));
    }
  }

  /** `SplitConcat` when `s` holds no match: the delimiter is the first one. */
  lemma SplitConcatLast(s: string, sep: string, t: string)
    requires IsDelimiter(sep) && EndsClean(s) && StartsClean(t)
    requires FirstPair(s, 0) == |s|
    ensures Split(s + sep + t) == [s] + Split(t)
  {
    var w := s + sep + t;
    FirstPairAtDelimiter(s, sep, t);
    RunEndAfterDelimiter(s, sep, t);
    assert w[..|s|] == s;
    assert w[|s| + |sep|..] == t;
  }

  /** `SplitConcat` when `s` holds a match: it is also the first match of
      `s + sep + t`, and the scan resumes inside `s`. */
  lemma SplitConcatStep(s: string, sep: string, t: string)
    requires IsDelimiter(sep) && EndsClean(s)
    requires FirstPair(s, 0) < |s|
    ensures FirstPair(s, 0) < RunEnd(s, FirstPair(s, 0)) < |s|
    ensures EndsClean(s[RunEnd(s, FirstPair(s, 0))..])
    ensures var i, j := FirstPair(s, 0), RunEnd(s, FirstPair(s, 0));
      && Split(s) == [s[..i]] + Split(s[j..])
      && Split(s + sep + t) == [s[..i]] + Split(s[j..] + sep + t)
  {
    var w := s + sep + t;
    var i := FirstPair(s, 0);
    var j := RunEnd(s, i);
    assert !IsWhitespace(s[|s| - 1]);
    FirstPairExtend(s, sep + t, 0);
    RunEndExtend(s, sep + t, i);
    assert w == s + (sep + t);
    assert w[..i] == s[..i];
    assert w[j..] == s[j..] + sep + t;
    assert s[j..][|s[j..]| - 1] == s[|s| - 1];
  }

  /** The bookkeeping of one `SplitConcat` step, on plain segment lists. */
  lemma PrependSegment(head: string, whole: seq<string>, rest: seq<string>,
                       joined: seq<string>, restJoined: seq<string>, tail: seq<string>)
    requires whole == [head] + rest && joined == [head] + restJoined
    requires restJoined == rest + tail
    ensures joined == whole + tail
  {
  }

  /** A string without pairs is its own single segment. */
  lemma SplitNoPair(s: string)
    requires NoPair(s)
    ensures Split(s) == [s]
  {
  }

  /** Joining well-formed segments with a delimiter and splitting again
      gives the segments back. */
  lemma {:induction false} SplitJoin(segs: seq<string>, sep: string)
    requires WellSplit(segs) && IsDelimiter(sep)
    ensures Split(Join(segs, sep)) == segs
  {
    if |segs| == 1 {
      SplitNoPair(segs[0]);
    } else {
      var rest := segs[1..];
      WellSplitTail(segs);
      assert StartsClean(Join(rest, sep)) by {
        if |rest| > 1 {
          assert rest[0] != [];
          assert Join(rest, sep)[0] == rest[0][0];
        }
      }
      SplitConcat(segs[0], sep, Join(rest, sep));
      SplitNoPair(segs[0]);
      SplitJoin(rest, sep);
      assert segs == [segs[0]] + rest;
    }
  }

  /** Every result of `Split` is well formed. */
  lemma {:induction false} SplitWellSplit(s: string)
    ensures WellSplit(Split(s))
    decreases |s|
  {
    var i := FirstPair(s, 0);
    if i < |s| {
      var j := RunEnd(s, i);
      var head, tail := s[..i], Split(s[j..]);
      SplitWellSplit(s[j..]);
      assert Split(s) == [head] + tail;
      assert NoPair(head) by {
        forall k | 0 <= k < |head| ensures !PairAt(head, k) {
          assert !PairAt(s, k);
          assert head[k] == s[k];
          assert k + 1 < |head| ==> head[k + 1] == s[k + 1];
        }
      }
      assert EndsClean(head) by {
        if i > 0 {
          assert !PairAt(s, i - 1);
        }
      }
      assert j < |s| ==> StartsClean(s[j..]);
      assert |tail| > 1 ==> tail[0] != [] by {
        // a non-empty rest opens with a non-whitespace character, so its
        // first match (if any) lies strictly inside it
        if |tail| > 1 {
          var rest := s[j..];
          assert FirstPair(rest, 0) < |rest|;
          assert tail[0] == rest[..FirstPair(rest, 0)];
          assert !PairAt(rest, 0);
        }
      }
      assert StartsClean(tail[0]) by {
        if tail[0] != [] {
          assert s[j..] != [];
          assert tail[0][0] == s[j..][0];
        }
      }
    }
  }

  /** A line splits into a single segment exactly when it holds no pair of
      adjacent whitespace characters, and that segment is the line itself. */
  lemma SplitSingle(s: string)
    ensures |Split(s)| == 1 <==> NoPair(s)
    ensures NoPair(s) ==> Split(s) == [s]
  {
    if !NoPair(s) {
      var k :| 0 <= k < |s| && PairAt(s, k);
      assert FirstPair(s, 0) <= k;
    }
  }

  /** The arguments of a split line (all segments after the first), joined
      with four spaces and split again, are the same arguments. */
  lemma SplitArgs(s: string)
    requires |Split(s)| >= 2
    ensures Split(Join(Split(s)[1..], Delimiter)) == Split(s)[1..]
  {
    var segs := Split(s);
    var args := segs[1..];
    SplitWellSplit(s);
    WellSplitTail(segs);
    SplitJoin(args, Delimiter);
  }
}
