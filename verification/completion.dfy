/**
 * `completer(text, state)`: the tab-completion callback. The text is split
 * like a command line; a single segment is completed from the known command
 * names, otherwise the last segment is completed from the names of the
 * variables currently bound in the runtime. Readline calls it with
 * `state` = 0, 1, 2, ... until it returns None.
 */
module Completion {
  import opened Wrappers
  import opened Text
  import opened Lexer

  /** `[i for i in candidates if i.startswith(prefix)]`. */
  function Matching(candidates: seq<string>, prefix: string): (r: seq<string>)
    ensures |r| <= |candidates|
    ensures forall k :: 0 <= k < |r| ==> StartsWith(r[k], prefix) && r[k] in candidates
    decreases |candidates|
  {
    if candidates == [] then []
    else
      (if StartsWith(candidates[0], prefix) then [candidates[0]] else [])
      + Matching(candidates[1..], prefix)
  }

  /** Every candidate that starts with the prefix is offered, and nothing else. */
  lemma {:induction false} MatchingMembers(candidates: seq<string>, prefix: string, x: string)
    ensures x in Matching(candidates, prefix) <==> x in candidates && StartsWith(x, prefix)
    decreases |candidates|
  {
    if candidates != [] {
      MatchingMembers(candidates[1..], prefix, x);
      assert candidates == [candidates[0]] + candidates[1..];
    }
  }

  /** Filtering keeps the candidates' order: the matches of a concatenation
      are the matches of the first part followed by those of the second. */
  lemma {:induction false} MatchingAppend(first: seq<string>, second: seq<string>, prefix: string)
    ensures Matching(first + second, prefix) == Matching(first, prefix) + Matching(second, prefix)
    decreases |first|
  {
    if first == [] {
      assert first + second == second;
    } else {
      assert (first + second)[0] == first[0];
      assert (first + second)[1..] == first[1..] + second;
      MatchingAppend(first[1..], second, prefix);
    }
  }

  /** The candidates offered for `text`: known command names starting with
      the whole text when it is one segment, bound variable names starting
      with its last segment otherwise. */
  function Options(text: string, commands: seq<string>, variables: seq<string>): seq<string> {
    var sects := Split(text);
    if |sects| > 1 then Matching(variables, sects[|sects| - 1])
    else Matching(commands, text)
  }

  /** `completer(text, state)`: the `state`-th option put in place of the
      last segment and the segments rejoined with four spaces, or None once
      the options are exhausted. */
  function Complete(text: string, state: nat, commands: seq<string>, variables: seq<string>)
    : (r: Option<string>)
    ensures r.None? <==> state >= |Options(text, commands, variables)|
    ensures |Split(text)| == 1 && r.Some? ==>
      && r.value in commands && StartsWith(r.value, text)
      && r.value == Matching(commands, text)[state]
    ensures |Split(text)| > 1 && r.Some? ==>
      var sects := Split(text);
      var name := Matching(variables, sects[|sects| - 1])[state];
      && name in variables && StartsWith(name, sects[|sects| - 1])
      && r.value == Join(sects[..|sects| - 1] + [name], Delimiter)
  {
    var sects := Split(text);
    var options := Options(text, commands, variables);
    if state < |options| then
      Some(Join(sects[..|sects| - 1] + [options[state]], Delimiter))
    else
      None
  }

  /** Putting a clean single segment in place of the last of well-formed
      segments keeps them well formed. */
  lemma WellSplitReplaceLast(sects: seq<string>, name: string)
    requires WellSplit(sects) && |sects| > 1
    requires NoPair(name) && StartsClean(name)
    ensures WellSplit(sects[..|sects| - 1] + [name])
  {
    var n := |sects|;
    var segs := sects[..n - 1] + [name];
    forall k | 0 <= k < |segs| - 1 ensures EndsClean(segs[k]) && NoPair(segs[k]) {
      assert segs[k] == sects[k];
    }
    forall k | 0 < k < |segs| ensures StartsClean(segs[k]) {
      if k < n - 1 {
        assert segs[k] == sects[k];
      }
    }
    forall k | 0 < k < |segs| - 1 ensures segs[k] != [] {
      assert segs[k] == sects[k];
    }
  }

  /** A completed line keeps every segment but the last, in order, and its
      last segment is the chosen variable name, which extends what was typed
      (provided the name is itself a single segment). */
  lemma {:induction false} CompletedLineKeepsSegments(
    text: string, state: nat, commands: seq<string>, variables: seq<string>)
    requires |Split(text)| > 1 && Complete(text, state, commands, variables).Some?
    requires var sects := Split(text);
      var name := Matching(variables, sects[|sects| - 1])[state];
      NoPair(name) && StartsClean(name)
    ensures var sects := Split(text);
      var name := Matching(variables, sects[|sects| - 1])[state];
      Split(Complete(text, state, commands, variables).value) == sects[..|sects| - 1] + [name]
  {
    var sects := Split(text);
    var n := |sects|;
    var name := Matching(variables, sects[n - 1])[state];
    var segs := sects[..n - 1] + [name];
    SplitWellSplit(text);
    WellSplitReplaceLast(sects, name);
    SplitJoin(segs, Delimiter);
  }
}
