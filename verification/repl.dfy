/**
 * `run_interactive`: the read-eval-print loop. It registers the built-in
 * keywords, then reads lines until the first one that strips to `exit()`.
 * Every other line is stripped, passed through `alter_commands` and
 * dispatched once with `run_rf`; a dispatch that raises is reported and the
 * loop goes on.
 *
 * The lines typed are given as a sequence. Whether dispatching the line at
 * a given position raises is decided by the runtime and is a parameter; the
 * text of the report is not modelled.
 */
module Repl {
  import opened Text
  import opened Rewrite
  import opened Registry

  /** The pseudo-command that ends the session. */
  const ExitCommand: string := "exit()"

  /** What the loop does with one line. */
  datatype Event =
      /** `run_rf(command)` was called (`Classify(command)` is what it did). */
    | Dispatched(command: string)
      /** The dispatch of `command` raised and the error was printed. */
    | Reported(command: string)

  /** The command actually dispatched for a typed line. */
  function Prepare(line: string): string {
    AlterCommands(Strip(line))
  }

  /** The position of the first line that strips to `exit()`, or the number
      of lines when there is none. */
  function ExitIndex(inputs: seq<string>, from: nat): (r: nat)
    requires from <= |inputs|
    ensures from <= r <= |inputs|
    ensures r < |inputs| ==> Strip(inputs[r]) == ExitCommand
    ensures forall k :: from <= k < r ==> Strip(inputs[k]) != ExitCommand
    decreases |inputs| - from
  {
    if from == |inputs| || Strip(inputs[from]) == ExitCommand then from
    else ExitIndex(inputs, from + 1)
  }

  /** The events of the session from line `from` on. */
  function Session(inputs: seq<string>, raises: nat -> bool, from: nat): seq<Event>
    requires from <= |inputs|
    decreases |inputs| - from
  {
    if from == |inputs| || Strip(inputs[from]) == ExitCommand then []
    else
      var command := Prepare(inputs[from]);
      LineEvents(command, raises(from)) + Session(inputs, raises, from + 1)
  }

  /** The events a line that is not `exit()` contributes. */
  function LineEvents(command: string, failed: bool): seq<Event> {
    [Dispatched(command)] + (if failed then [Reported(command)] else [])
  }

  /** One step of the session. */
  lemma SessionStep(inputs: seq<string>, raises: nat -> bool, from: nat)
    requires from < |inputs|
    ensures Strip(inputs[from]) == ExitCommand ==>
      Session(inputs, raises, from) == [] && ExitIndex(inputs, from) == from
    ensures Strip(inputs[from]) != ExitCommand ==>
      && Session(inputs, raises, from)
           == LineEvents(Prepare(inputs[from]), raises(from)) + Session(inputs, raises, from + 1)
      && ExitIndex(inputs, from) == ExitIndex(inputs, from + 1)
  {
  }

  /** The commands dispatched among the events, in order. */
  function DispatchedCommands(events: seq<Event>): seq<string> {
    if events == [] then []
    else
      (if events[0].Dispatched? then [events[0].command] else [])
      + DispatchedCommands(events[1..])
  }

  lemma {:induction false} DispatchedCommandsAppend(a: seq<Event>, b: seq<Event>)
    ensures DispatchedCommands(a + b) == DispatchedCommands(a) + DispatchedCommands(b)
    decreases |a|
  {
    if a == [] {
      assert a + b == b;
    } else {
      assert (a + b)[0] == a[0] && (a + b)[1..] == a[1..] + b;
      DispatchedCommandsAppend(a[1..], b);
    }
  }

  /** The commands of the lines before the first `exit()`, in order. */
  function PreparedUntilExit(inputs: seq<string>, from: nat): seq<string>
    requires from <= |inputs|
    decreases |inputs| - from
  {
    if from == |inputs| || Strip(inputs[from]) == ExitCommand then []
    else [Prepare(inputs[from])] + PreparedUntilExit(inputs, from + 1)
  }

  /** The commands dispatched are exactly the prepared lines before the
      first `exit()`; failures do not stop the loop, so this holds whatever
      the runtime raises. */
  lemma {:induction false} SessionDispatchesUntilExit(
    inputs: seq<string>, raises: nat -> bool, from: nat)
    requires from <= |inputs|
    ensures DispatchedCommands(Session(inputs, raises, from)) == PreparedUntilExit(inputs, from)
    decreases |inputs| - from
  {
    if from < |inputs| && Strip(inputs[from]) != ExitCommand {
      SessionStep(inputs, raises, from);
      var command := Prepare(inputs[from]);
      var head := LineEvents(command, raises(from));
      DispatchedCommandsAppend(head, Session(inputs, raises, from + 1));
      assert DispatchedCommands(head) == [command] by {
        if raises(from) {
          assert head[1..] == [Reported(command)];
        }
      }
      SessionDispatchesUntilExit(inputs, raises, from + 1);
    }
  }

  /** Every line of `lines`, prepared, in order. */
  function PrepareAll(lines: seq<string>): (r: seq<string>)
    ensures |r| == |lines|
    ensures forall k :: 0 <= k < |lines| ==> r[k] == Prepare(lines[k])
  {
    if lines == [] then [] else [Prepare(lines[0])] + PrepareAll(lines[1..])
  }

  /** Exactly the lines before the first `exit()` are prepared, each once
      and in order, as its stripped and altered form. */
  lemma {:induction false} PreparedUntilExitLines(inputs: seq<string>, from: nat)
    requires from <= |inputs|
    ensures PreparedUntilExit(inputs, from) == PrepareAll(inputs[from..ExitIndex(inputs, from)])
    decreases |inputs| - from
  {
    if from < |inputs| && Strip(inputs[from]) != ExitCommand {
      var e := ExitIndex(inputs, from);
      assert e == ExitIndex(inputs, from + 1);
      PreparedUntilExitLines(inputs, from + 1);
      assert inputs[from..e][1..] == inputs[from + 1..e];
    }
  }

  /** A failure is reported right after the dispatch that raised it, and
      only then. */
  lemma {:induction false} SessionReportsFailures(inputs: seq<string>, raises: nat -> bool, from: nat)
    requires from <= |inputs|
    ensures var events := Session(inputs, raises, from);
      forall k :: 0 <= k < |events| && events[k].Reported? ==>
        k > 0 && events[k - 1].Dispatched? && events[k - 1].command == events[k].command
    decreases |inputs| - from
  {
    if from < |inputs| && Strip(inputs[from]) != ExitCommand {
      var head := LineEvents(Prepare(inputs[from]), raises(from));
      var rest := Session(inputs, raises, from + 1);
      var events := head + rest;
      SessionStep(inputs, raises, from);
      SessionReportsFailures(inputs, raises, from + 1);
      forall k | 0 <= k < |events| && events[k].Reported?
        ensures k > 0 && events[k - 1].Dispatched? && events[k - 1].command == events[k].command
      {
        if k >= |head| {
          assert events[k] == rest[k - |head|];
          assert k - |head| > 0;
          assert events[k - 1] == rest[k - |head| - 1];
        }
      }
    }
  }

  /** The commands whose failure was reported among the events, in order. */
  function ReportedCommands(events: seq<Event>): seq<string> {
    if events == [] then []
    else
      (if events[0].Reported? then [events[0].command] else [])
      + ReportedCommands(events[1..])
  }

  lemma {:induction false} ReportedCommandsAppend(a: seq<Event>, b: seq<Event>)
    ensures ReportedCommands(a + b) == ReportedCommands(a) + ReportedCommands(b)
    decreases |a|
  {
    if a == [] {
      assert a + b == b;
    } else {
      assert (a + b)[0] == a[0] && (a + b)[1..] == a[1..] + b;
      ReportedCommandsAppend(a[1..], b);
    }
  }

  /** The commands of the lines before the first `exit()` whose dispatch
      raises, in order. */
  function FailedUntilExit(inputs: seq<string>, raises: nat -> bool, from: nat): seq<string>
    requires from <= |inputs|
    decreases |inputs| - from
  {
    if from == |inputs| || Strip(inputs[from]) == ExitCommand then []
    else
      (if raises(from) then [Prepare(inputs[from])] else [])
      + FailedUntilExit(inputs, raises, from + 1)
  }

  /** The failures reported are exactly those of the lines before the first
      `exit()` whose dispatch raised, each once and in order: a raising
      dispatch is always reported and a succeeding one never is. */
  lemma {:induction false} SessionReportsExactlyFailures(
    inputs: seq<string>, raises: nat -> bool, from: nat)
    requires from <= |inputs|
    ensures ReportedCommands(Session(inputs, raises, from)) == FailedUntilExit(inputs, raises, from)
    decreases |inputs| - from
  {
    if from < |inputs| && Strip(inputs[from]) != ExitCommand {
      SessionStep(inputs, raises, from);
      var command := Prepare(inputs[from]);
      var head := LineEvents(command, raises(from));
      ReportedCommandsAppend(head, Session(inputs, raises, from + 1));
      assert ReportedCommands(head) == (if raises(from) then [command] else []) by {
        assert head[1..] == (if raises(from) then [Reported(command)] else []);
        if raises(from) {
          assert head[1..][1..] == [];
        }
      }
      SessionReportsExactlyFailures(inputs, raises, from + 1);
    }
  }

  /** When no dispatch raises, nothing is reported; when every dispatch
      raises, every dispatched command is reported. */
  lemma {:induction false} FailedUntilExitExtremes(
    inputs: seq<string>, raises: nat -> bool, from: nat)
    requires from <= |inputs|
    ensures (forall i :: !raises(i)) ==> FailedUntilExit(inputs, raises, from) == []
    ensures (forall i :: raises(i)) ==>
      FailedUntilExit(inputs, raises, from) == PreparedUntilExit(inputs, from)
    decreases |inputs| - from
  {
    if from < |inputs| && Strip(inputs[from]) != ExitCommand {
      FailedUntilExitExtremes(inputs, raises, from + 1);
    }
  }

  /** Lines after the first `exit()` have no effect on the session. */
  lemma {:induction false} SessionIgnoresLinesAfterExit(
    inputs: seq<string>, more: seq<string>, raises: nat -> bool, from: nat)
    requires from <= |inputs| && ExitIndex(inputs, from) < |inputs|
    ensures Session(inputs + more, raises, from) == Session(inputs, raises, from)
    decreases |inputs| - from
  {
    var line := inputs[from];
    assert (inputs + more)[from] == line;
    SessionStep(inputs, raises, from);
    SessionStep(inputs + more, raises, from);
    if Strip(line) != ExitCommand {
      assert ExitIndex(inputs, from + 1) < |inputs|;
      SessionIgnoresLinesAfterExit(inputs, more, raises, from + 1);
    }
  }

  /** The `try` block of the loop for one stripped line: alter it, dispatch
      it, and report the error when the dispatch raised. */
  method HandleLine(line: string, failed: bool) returns (events: seq<Event>)
    ensures events == LineEvents(AlterCommands(line), failed)
    ensures |events| == (if failed then 2 else 1)
  {
    var cmd := AlterCommands(line);
    events := [Dispatched(cmd)];
    if failed {
      events := events + [Reported(cmd)];
    }
  }

  /** The events so far, followed by one more line's events, still lead to
      the whole session. */
  lemma SessionExtend(inputs: seq<string>, raises: nat -> bool, i: nat, events: seq<Event>)
    requires i < |inputs| && Strip(inputs[i]) != ExitCommand
    requires events + Session(inputs, raises, i) == Session(inputs, raises, 0)
    ensures (events + LineEvents(Prepare(inputs[i]), raises(i))) + Session(inputs, raises, i + 1)
      == Session(inputs, raises, 0)
  {
    SessionStep(inputs, raises, i);
  }

  /** `run_interactive()`: registers the built-in keywords, then runs the
      loop over `inputs`. `exited` is false when the input ran out before an
      `exit()` line (reading past the end raises and ends the loop). */
  method RunInteractive(
    registry: CommandRegistry, builtinKeywords: seq<string>,
    inputs: seq<string>, raises: nat -> bool)
    returns (events: seq<Event>, exited: bool)
    modifies registry
    ensures registry.commands == old(registry.commands) + builtinKeywords
    ensures events == Session(inputs, raises, 0)
    ensures exited <==> ExitIndex(inputs, 0) < |inputs|
  {
    registry.AddCommands(builtinKeywords);
    events := [];
    var i := 0;
    while i < |inputs|
      invariant 0 <= i <= |inputs|
      invariant registry.commands == old(registry.commands) + builtinKeywords
      invariant ExitIndex(inputs, 0) == ExitIndex(inputs, i)
      invariant events + Session(inputs, raises, i) == Session(inputs, raises, 0)
    {
      var line := Strip(inputs[i]);
      if line == ExitCommand {
        SessionStep(inputs, raises, i);
        assert events + [] == events;
        exited := true;
        return;
      }
      var handled := HandleLine(line, raises(i));
      SessionExtend(inputs, raises, i, events);
      events := events + handled;
      i := i + 1;
    }
    assert events + [] == events;
    exited := false;
  }
}
