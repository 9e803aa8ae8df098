# robotframework-interactive, modelled in Dafny

robotframework-interactive is a read-eval-print loop around Robot Framework.
Each typed line is stripped. The line `exit()` ends the session. Any other
line goes through `alter_commands`, which adds a Chrome option to
`Open Browser` lines, and is then dispatched by `run_rf`. That function cuts
the line with `re.split('\s{2,}', ...)` and decides whether it is a
`Library`/`Resource`/`Variables` import, a variable assignment (a nested
command whose value is stored), a comment, an empty line, or a keyword call.
A failed dispatch is printed back through the runtime's `Log To Console`
keyword (`rfprint`), and the loop goes on. Tab completion (`completer`)
offers known command names for the first segment and the runtime's
variable names after that. The known command names live in the
process-wide `COMMANDS` list, which `add_commands` appends to.

The project has one Dafny module per part of the program:

- `Text` (text.dfy): the Python `str` operations the program uses.
  - `IsWhitespace` is the exact set of characters that `str.isspace` and
    the `\s` class of a `str` pattern accept.
  - `IsLineBreak` is the exact set of `str.splitlines` boundaries.
  - Also `strip`, `replace`, `lower`, `startswith`, `in` and `join`.
- `Lexer` (lexer.dfy): `re.split('\s{2,}', ...)`. Each match is the
  leftmost one and is greedy.
- `Dispatcher` (dispatcher.dfy): `run_rf`.
  - A line becomes a `Dispatch` value that records the branch taken.
  - `Calls` lists the runtime operations that branch performs, in order.
  - `Returned` gives what it returns; `Raises` says whether it fails before
    completing.
- `Rewrite` (rewrite.dfy): `alter_commands`.
- `Completion` (completion.dfy): `completer`.
- `Console` (console.dfy): `rfprint`, a method with the source's loop over
  lines.
- `Registry` (registry.dfy): `COMMANDS` and `add_commands`, as a class with
  a mutable `commands` field.
- `Repl` (repl.dfy): `run_interactive`.
  - It is a method with the source's loop, run over a given sequence of
    typed lines.
  - It is specified by the function `Session`, which gives the events the
    loop produces.
- `Wrappers` (wrappers.dfy): `Option`, for Python's `None`.

The runtime (`BuiltIn()`, `LibraryDocumentation`) is never called by the
model:

- the keyword names a library documents are a parameter of `AddCommands`
  and `RunInteractive`;
- the variable names `get_variables()` returns are a parameter of
  `Complete`;
- whether the dispatch of the line at a given position raises is a
  parameter `raises` of `Session` and `RunInteractive`.

## Model

| member | source | states |
|---|---|---|
| Text.Strip | robotframeworkinteractive/robotframeworkinteractive.py:88 | `strip()` leaves no whitespace at either end, is no longer than its input, and keeps only characters of its input |
| Text.TrimStartDropsWhitespace | robotframeworkinteractive/robotframeworkinteractive.py:88 | the leading part that `strip()` removes is all whitespace, and what stays is a suffix of the input |
| Text.TrimEndDropsWhitespace | robotframeworkinteractive/robotframeworkinteractive.py:88 | the trailing part that `strip()` removes is all whitespace, and what stays is a prefix |
| Text.StripDropsWhitespace | robotframeworkinteractive/robotframeworkinteractive.py:88 | `strip()` keeps one contiguous slice of its input, and everything it removes before and after that slice is whitespace |
| Text.StripClean | robotframeworkinteractive/robotframeworkinteractive.py:51 | a string with whitespace at neither end is its own `strip()` |
| Text.Replace | robotframeworkinteractive/robotframeworkinteractive.py:51 | `replace(c, t)` turns a one-character string `c` into `t` and leaves any other one-character string as it is. A string without `c` is unchanged, every `c` goes when `t` has none, and only characters of the input or of `t` appear. With `ReplaceAppend` this fixes the result for every string |
| Text.ReplaceAppend | robotframeworkinteractive/robotframeworkinteractive.py:77 | replacing distributes over concatenation |
| Text.ContainsIff | robotframeworkinteractive/robotframeworkinteractive.py:33 | the substring test `in` holds exactly when the pattern occurs at some position, so `not in` means it occurs nowhere |
| Text.ContainsWitness | robotframeworkinteractive/robotframeworkinteractive.py:33 | when the substring test holds, it names a position where the pattern occurs |
| Text.ContainsAt | robotframeworkinteractive/robotframeworkinteractive.py:33 | the substring test `in` holds whenever the pattern occurs at some position |
| Text.SplitLines | robotframeworkinteractive/robotframeworkinteractive.py:75 | `splitlines()` gives no lines exactly for the empty string, and no line holds a line boundary |
| Text.SplitLinesJoin | robotframeworkinteractive/robotframeworkinteractive.py:75 | boundary-free lines joined with `\n` split back into the same lines when the last one is not empty |
| Text.SplitLinesTrailingBreak | robotframeworkinteractive/robotframeworkinteractive.py:75 | a final `\n` after boundary-free lines starts no empty last line: the text splits back into exactly those lines |
| Text.SplitLinesCRLF | robotframeworkinteractive/robotframeworkinteractive.py:75 | `\r\n` is one boundary: a line followed by `\r\n` is cut off whole, with no empty line between the two characters |
| Text.SplitLinesAtBreak | robotframeworkinteractive/robotframeworkinteractive.py:75 | every other boundary (lone `\r`, `\x0b`, `\x0c`, `\x1c`-`\x1e`, `\x85`, U+2028, U+2029, `\n`) is one character wide: the line before it is cut off whole and the text after it is split on its own |
| Text.SplitLinesOneLine | robotframeworkinteractive/robotframeworkinteractive.py:75 | non-empty text with no boundary is exactly one line |
| Lexer.FirstPair | robotframeworkinteractive/robotframeworkinteractive.py:40 | the match found is the leftmost place where two whitespace characters follow each other |
| Lexer.RunEnd | robotframeworkinteractive/robotframeworkinteractive.py:40 | the match is greedy: it covers the whole whitespace run and stops at a non-whitespace character or at the end |
| Lexer.Split | robotframeworkinteractive/robotframeworkinteractive.py:40 | `re.split` never returns an empty list |
| Lexer.SplitWellSplit | robotframeworkinteractive/robotframeworkinteractive.py:40 | no segment holds two adjacent whitespace characters; segments next to a cut start and end clean; only the first and last segments can be empty |
| Lexer.SplitSingle | robotframeworkinteractive/robotframeworkinteractive.py:40 | a line is one segment exactly when it has no two adjacent whitespace characters, and that segment is the line unchanged |
| Lexer.SplitConcat | robotframeworkinteractive/robotframeworkinteractive.py:40 | cutting at a whitespace run between a part that ends clean and one that starts clean splits the two parts separately |
| Lexer.SplitJoin | robotframeworkinteractive/robotframeworkinteractive.py:69 | segments of the shape `re.split` produces, joined with a whitespace separator of length two or more, split back into the same segments |
| Lexer.SplitArgs | robotframeworkinteractive/robotframeworkinteractive.py:50 | the arguments of a line, joined with four spaces, split again into exactly those arguments |
| Dispatcher.VariableName | robotframeworkinteractive/robotframeworkinteractive.py:51 | the stored name contains no `=`, has no surrounding whitespace, and uses only characters of the target |
| Dispatcher.VariableNameOfTarget | robotframeworkinteractive/robotframeworkinteractive.py:51 | a target written `name=` stores into `name` |
| Dispatcher.NestedCommandShrinks | robotframeworkinteractive/robotframeworkinteractive.py:49-50 | the nested command is empty, or it has fewer segments than the line it came from, and its segments are the line's arguments |
| Dispatcher.Classify | robotframeworkinteractive/robotframeworkinteractive.py:39-58 | the branch `run_rf` takes, in its order. A case-insensitive settings keyword gives an import of `args[0]`, or a failure without an argument. A leading `$ @ & %` gives an assignment; `#` gives a comment; an empty keyword gives a blank line. Anything else gives a keyword call whose keyword and arguments are the segments. The recursion terminates on a decreasing segment count |
| Dispatcher.SettingsLineCalls | robotframeworkinteractive/robotframeworkinteractive.py:41-48 | a settings line with an argument `x` imports `x`. A library or a resource first has its keywords harvested (`add_commands(x)`), then is imported; a variables file is only imported. The import's value is returned, and nothing fails. `Calls`, `Returned` and `Raises` interpret a `Dispatch` as these runtime requests |
| Dispatcher.NoOpLines | robotframeworkinteractive/robotframeworkinteractive.py:53-56 | comment and empty lines make no runtime call, return None and do not fail |
| Dispatcher.MissingSettingName | robotframeworkinteractive/robotframeworkinteractive.py:41-48 | a settings line without an argument fails before any runtime call |
| Dispatcher.AssignmentBranch | robotframeworkinteractive/robotframeworkinteractive.py:49-52 | an assignment stores into `keyword.replace('=', '').strip()` and dispatches the arguments joined with four spaces. It returns None. Its calls are the nested calls followed by `set_local_variable`, unless the nested dispatch fails |
| Dispatcher.ClassifyKeywordLine | robotframeworkinteractive/robotframeworkinteractive.py:57-58 | a plain keyword and its arguments, joined with four spaces, dispatch as exactly that `run_keyword` call |
| Dispatcher.ClassifyAssignmentLine | robotframeworkinteractive/robotframeworkinteractive.py:49-52 | `target  keyword  args` makes exactly one nested `run_keyword` call and then stores its value under the target's name |
| Dispatcher.ClassifyExtraArgument | robotframeworkinteractive/robotframeworkinteractive.py:57-58 | a keyword-call line that gains one final segment is the same call with one more final argument |
| Rewrite.AlterCommands | robotframeworkinteractive/robotframeworkinteractive.py:32-36 | the line is unchanged unless its lowercase form starts with `open browser` and it lacks the marker. Otherwise the option clause is appended. Either way the original is a prefix |
| Rewrite.AlteredHasMarker | robotframeworkinteractive/robotframeworkinteractive.py:33-34 | an altered line contains the marker and needs no further option |
| Rewrite.AlterCommandsIdempotent | robotframeworkinteractive/robotframeworkinteractive.py:32-36 | altering twice is the same as altering once |
| Rewrite.OptionArgumentIsSegment | robotframeworkinteractive/robotframeworkinteractive.py:34 | the appended option is one segment, starting clean |
| Rewrite.BrowserLineIsKeywordCall | robotframeworkinteractive/robotframeworkinteractive.py:33 | a line that opens a browser is dispatched as a keyword call |
| Rewrite.AlteredBrowserCall | robotframeworkinteractive/robotframeworkinteractive.py:34 | on a stripped line, the alteration adds exactly one segment, the option, as the last argument of the same keyword call |
| Completion.Matching | robotframeworkinteractive/robotframeworkinteractive.py:64-66 | every option starts with the prefix and is a candidate |
| Completion.MatchingMembers | robotframeworkinteractive/robotframeworkinteractive.py:64-66 | a name is offered exactly when it is a candidate that starts with the prefix |
| Completion.MatchingAppend | robotframeworkinteractive/robotframeworkinteractive.py:64-66 | filtering keeps the candidates' order |
| Completion.Complete | robotframeworkinteractive/robotframeworkinteractive.py:61-71 | None exactly when `state` is at least the number of options. With one segment: the `state`-th command name that starts with the text. Otherwise: the line rejoined with four spaces, with its last segment replaced by the `state`-th matching variable name |
| Completion.CompletedLineKeepsSegments | robotframeworkinteractive/robotframeworkinteractive.py:67-69 | the completed line splits into the typed segments but the last, in order, followed by the chosen name |
| Console.Payload | robotframeworkinteractive/robotframeworkinteractive.py:77 | the logged payload contains no space, and a line without spaces is logged as it is |
| Console.PayloadHasNoWhitespace | robotframeworkinteractive/robotframeworkinteractive.py:77 | when a line's only whitespace is spaces, its payload holds no whitespace at all |
| Console.PayloadAroundSpace | robotframeworkinteractive/robotframeworkinteractive.py:77 | every space becomes `${SPACE}`: the payload of two parts around a space is their payloads around the token, and a lone space becomes the token |
| Console.RfPrint | robotframeworkinteractive/robotframeworkinteractive.py:74-78 | one dispatch per line of `splitlines()`, so none for the empty text. The `k`-th is `Log To Console`, four spaces, and line `k` with its spaces replaced by `${SPACE}` |
| Console.LogCommandSplits | robotframeworkinteractive/robotframeworkinteractive.py:77-78 | a line whose payload holds no whitespace pair and does not start with whitespace (a lone tab inside included) is dispatched as exactly `[Log To Console, payload]`, one keyword call |
| Console.LogCommandParses | robotframeworkinteractive/robotframeworkinteractive.py:78 | when a line's only whitespace is spaces, its command splits into exactly `[Log To Console, payload]` and is dispatched as that one keyword call |
| Registry.CommandRegistry.constructor | robotframeworkinteractive/robotframeworkinteractive.py:22 | the registry starts as `['Library', 'Resource']` |
| Registry.CommandRegistry.AddCommands | robotframeworkinteractive/robotframeworkinteractive.py:25-29 | the names are appended in order. Every earlier entry stays in place, and the length grows by the number of names. Duplicates are kept |
| Repl.ExitIndex | robotframeworkinteractive/robotframeworkinteractive.py:88-91 | the first line that strips to `exit()`; no earlier line does |
| Repl.SessionDispatchesUntilExit | robotframeworkinteractive/robotframeworkinteractive.py:87-97 | the commands dispatched are exactly the prepared lines before the first `exit()`, whatever the runtime raises |
| Repl.PrepareAll | robotframeworkinteractive/robotframeworkinteractive.py:88-94 | one command per line, each the stripped and altered line, in order |
| Repl.PreparedUntilExitLines | robotframeworkinteractive/robotframeworkinteractive.py:87-94 | the prepared lines before the first `exit()` are those lines, each stripped and altered, in order |
| Repl.SessionReportsFailures | robotframeworkinteractive/robotframeworkinteractive.py:93-97 | every report comes right after a dispatch of the same command |
| Repl.SessionReportsExactlyFailures | robotframeworkinteractive/robotframeworkinteractive.py:93-97 | the reported commands are exactly the prepared lines before the first `exit()` whose dispatch raised, in order. A raising dispatch is always reported, and a succeeding one never is |
| Repl.FailedUntilExitExtremes | robotframeworkinteractive/robotframeworkinteractive.py:93-97 | if no dispatch raises, nothing is reported; if every dispatch raises, every dispatched command is reported |
| Repl.SessionIgnoresLinesAfterExit | robotframeworkinteractive/robotframeworkinteractive.py:90-91 | lines typed after the first `exit()` have no effect |
| Repl.HandleLine | robotframeworkinteractive/robotframeworkinteractive.py:93-97 | one dispatch of the altered line, followed by a report when it raised |
| Repl.RunInteractive | robotframeworkinteractive/robotframeworkinteractive.py:81-97 | registers the built-in keywords and produces exactly the events of `Session`. The loop ends normally exactly when some line strips to `exit()` |

## Left out

- Terminal plumbing is not modelled: the platform switch, readline setup, `get_input` and `input()` (robotframeworkinteractive/robotframeworkinteractive.py:8-19, 83-85). The typed lines are a sequence. Running out of them stands for `input()` raising at end of file, and `RunInteractive` then returns `exited == false`.
- `main()` and `robot.run` (robotframeworkinteractive/robotframeworkinteractive.py:100-107) are process glue.
- The runtime calls (`import_library`, `import_resource`, `import_variables`, `set_local_variable`, `run_keyword`, `get_variables`) are foreign. They appear only as `Request` values, and their semantics are not modelled.
- `LibraryDocumentation(...).keywords` is foreign. The documented keyword names are a parameter of `AddCommands`.
- Calls: lists the runtime operations on the assumption that each one succeeds. Only the failure the code itself causes, the missing `args[0]` of a settings line, is modelled (`Raises`).
- RunInteractive: a `Library` or `Resource` line typed during the session grows `COMMANDS` through `add_commands`, and this growth is not applied to the registry. Only the built-in keywords are registered, because dispatch inside the loop is abstract.
- RunInteractive: the text of the printed error is not modelled. A failure inside `rfprint` itself, which would leave the loop, is not modelled either; a report is one `Reported` event.
- Lower: maps only `A`-`Z`, not all of Unicode. This is exact for the literals `library`, `resource`, `variables` and `open browser`: no other single character lowers to one of their letters alone. U+212A KELVIN SIGN lowers to `k`, which none of them contains. U+0130 LATIN CAPITAL LETTER I WITH DOT ABOVE lowers to `i` followed by the combining mark U+0307, and that mark keeps the lowered text from equalling any of the literals.
- RfPrint: `str(obj)` on arbitrary objects is not modelled; `rfprint` takes a string.
- Complete: `state` is a natural number; readline never passes a negative one.
- `setup.py` is packaging metadata.
- The class-based API exercised by tests/test_robotframeworkinteractive.py (`RobotFrameworkInteractive`, `export`, command histories) has no implementation in robotframeworkinteractive/robotframeworkinteractive.py. It is not part of this model. Where those tests disagree with the module, the model follows the module: sigil-aware completion, escaping in `rfprint`, and the value an assignment returns.
