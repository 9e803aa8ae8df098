/**
 * `run_rf`: how one REPL line is classified and what it asks of the
 * automation runtime (Robot Framework's `BuiltIn`). The runtime is not
 * modelled; a line is mapped to a `Dispatch` describing the decision, and
 * `Calls` lists the runtime operations that decision performs, in order.
 */
module Dispatcher {
  import opened Wrappers
  import opened Text
  import opened Lexer

  /** The three settings imports, recognised case-insensitively. */
  datatype Setting = Library | Resource | Variables

  /** The branch `run_rf` takes for a line. */
  datatype Dispatch =
      /** Import `name`; for a library or a resource its keyword names are
          first harvested into the command registry. Returns the import's value. */
    | Import(setting: Setting, name: string)
      /** A settings line with no argument: `args[0]` raises `IndexError`. */
    | MissingName(setting: Setting)
      /** A variable assignment: `command` is dispatched recursively (as
          `value`) and its result stored under `variable`. Returns None. */
    | Assignment(variable: string, command: string, value: Dispatch)
      /** A line starting with `#`: nothing happens. Returns None. */
    | Comment
      /** An empty line: nothing happens. Returns None. */
    | Blank
      /** Any other line: `run_keyword(keyword, *args)`, returning its value. */
    | KeywordCall(keyword: string, args: seq<string>)

  /** An operation performed on the automation runtime. */
  datatype Request =
      /** `add_commands(source)`: read the keyword names of a library or
          resource and append them to the command registry. */
    | HarvestKeywords(source: string)
      /** `import_library` / `import_resource` / `import_variables`. */
    | ImportSetting(setting: Setting, name: string)
      /** `set_local_variable(name, value)`, where `value` is what the given
          request returned (None when the nested dispatch returned None). */
    | SetLocalVariable(name: string, value: Option<Request>)
      /** `run_keyword(keyword, *args)`. */
    | RunKeyword(keyword: string, args: seq<string>)

  /** The settings keyword a segment names, matched case-insensitively and
      tried in the order library, resource, variables. */
  function SettingOf(keyword: string): Option<Setting> {
    var k := Lower(keyword);
    if k == "library" then Some(Library)
    else if k == "resource" then Some(Resource)
    else if k == "variables" then Some(Variables)
    else None
  }

  /** The first characters that make a line a variable assignment. */
  predicate IsSigil(c: char) {
    c == '$' || c == '@' || c == '&' || c == '%'
  }

  /** The name an assignment stores into: the target with every `=`
      removed, then stripped of surrounding whitespace. */
  function VariableName(target: string): (r: string)
    ensures '=' !in r
    ensures StartsClean(r) && EndsClean(r)
    ensures forall x :: x in r ==> x in target
  {
    Strip(Replace(target, '=', ""))
  }

  /** A target written `name=`, where `name` has no `=` and no surrounding
      whitespace, stores into `name`. */
  lemma VariableNameOfTarget(name: string)
    requires '=' !in name && StartsClean(name) && EndsClean(name)
    ensures VariableName(name + "=") == name
  {
    ReplaceAppend(name, "=", '=', "");
    assert Replace("=", '=', "") == "";
    assert name + "" == name;
    StripClean(name);
  }

  /** The inner command of an assignment has fewer segments than the line
      it came from, unless it is the empty line. */
  lemma NestedCommandShrinks(cmd: string)
    ensures var segs := Split(cmd);
      var inner := Join(segs[1..], Delimiter);
      && (|segs| == 1 ==> inner == "")
      && (|segs| >= 2 ==> Split(inner) == segs[1..])
      && (inner == "" || |Split(inner)| < |segs|)
  {
    if |Split(cmd)| >= 2 {
      SplitArgs(cmd);
    }
  }

  /** `run_rf(cmd)`: split the line, then test its first segment against the
      settings keywords, the assignment sigils, `#` and the empty string, in
      that order; anything else is a keyword call with the remaining
      segments as arguments. */
  function Classify(cmd: string): (d: Dispatch)
    ensures var segs := Split(cmd); var keyword := segs[0];
      && (d.Import? || d.MissingName? <==> SettingOf(keyword).Some?)
      && (d.MissingName? <==> SettingOf(keyword).Some? && |segs| == 1)
      && (d.Import? ==> d.setting == SettingOf(keyword).value && d.name == segs[1])
      && (d.MissingName? ==> d.setting == SettingOf(keyword).value)
      && (d.Assignment? <==> keyword != "" && IsSigil(keyword[0]))
      && (d.Comment? <==> keyword != "" && keyword[0] == '#')
      && (d.Blank? <==> keyword == "")
      && (d.KeywordCall? ==> [d.keyword] + d.args == segs)
    decreases |Split(cmd)| + (if cmd == "" then 0 else 1)
  {
    var segs := Split(cmd);
    var keyword, args := segs[0], segs[1..];
    match SettingOf(keyword)
    case Some(setting) =>
      if args == [] then MissingName(setting) else Import(setting, args[0])
    case None =>
      if keyword != "" && IsSigil(keyword[0]) then
        var inner := Join(args, Delimiter);
        NestedCommandShrinks(cmd);
        Assignment(VariableName(keyword), inner, Classify(inner))
      else if keyword != "" && keyword[0] == '#' then Comment
      else if keyword == "" then Blank
      else KeywordCall(keyword, args)
  }

  /** Whether carrying out the dispatch raises before it completes, assuming
      every runtime operation itself succeeds. */
  predicate Raises(d: Dispatch) {
    match d
    case MissingName(_) => true
    case Assignment(_, _, value) => Raises(value)
    case _ => false
  }

  /** The runtime request whose result `run_rf` returns; None when it
      returns None. */
  function Returned(d: Dispatch): Option<Request> {
    match d
    case Import(setting, name) => Some(ImportSetting(setting, name))
    case KeywordCall(keyword, args) => Some(RunKeyword(keyword, args))
    case _ => None
  }

  /** The runtime operations the dispatch performs, in order, assuming each
      of them succeeds. */
  function Calls(d: Dispatch): seq<Request> {
    match d
    case Import(Variables, name) => [ImportSetting(Variables, name)]
    case Import(setting, name) => [HarvestKeywords(name), ImportSetting(setting, name)]
    case MissingName(_) => []
    case Assignment(variable, _, value) =>
      Calls(value) + (if Raises(value) then [] else [SetLocalVariable(variable, Returned(value))])
    case Comment => []
    case Blank => []
    case KeywordCall(keyword, args) => [RunKeyword(keyword, args)]
  }

  /** A settings line with an argument `x`: a library or a resource first
      has its keywords harvested and is then imported, a variables file is
      only imported; the import's value is returned and nothing fails. */
  lemma SettingsLineCalls(cmd: string)
    requires SettingOf(Split(cmd)[0]).Some? && |Split(cmd)| >= 2
    ensures var setting, x := SettingOf(Split(cmd)[0]).value, Split(cmd)[1];
      && Classify(cmd) == Import(setting, x)
      && Calls(Classify(cmd)) == (if setting == Variables then [] else [HarvestKeywords(x)])
                                 + [ImportSetting(setting, x)]
      && Returned(Classify(cmd)) == Some(ImportSetting(setting, x))
      && !Raises(Classify(cmd))
  {
  }

  /** Comment and empty lines make no runtime call and return None. */
  lemma NoOpLines(cmd: string)
    requires Split(cmd)[0] == "" || Split(cmd)[0][0] == '#'
    ensures Calls(Classify(cmd)) == [] && Returned(Classify(cmd)) == None
    ensures !Raises(Classify(cmd))
  {
    if Split(cmd)[0] != "" {
      MarkedKeywordIsNoSetting(Split(cmd)[0]);
    }
  }

  /** A settings line without an argument raises before any runtime call. */
  lemma MissingSettingName(cmd: string)
    requires SettingOf(Split(cmd)[0]).Some? && |Split(cmd)| == 1
    ensures Raises(Classify(cmd)) && Calls(Classify(cmd)) == []
  {
  }

  /** The assignment branch: the variable name, the inner command (the
      arguments joined with four spaces), the nested dispatch of exactly that
      command, the calls it makes, and the None it returns. */
  lemma AssignmentBranch(cmd: string)
    requires var keyword := Split(cmd)[0]; keyword != "" && IsSigil(keyword[0])
    ensures var segs := Split(cmd); var d := Classify(cmd);
      && d.Assignment?
      && d.variable == VariableName(segs[0])
      && d.command == Join(segs[1..], Delimiter)
      && d.value == Classify(d.command)
      && (|segs| >= 2 ==> Split(d.command) == segs[1..])
      && (d.command == "" ==> d.value == Blank)
      && Returned(d) == None
      && Calls(d) == Calls(d.value)
           + (if Raises(d.value) then [] else [SetLocalVariable(d.variable, Returned(d.value))])
  {
    var segs := Split(cmd);
    var inner := Join(segs[1..], Delimiter);
    AssignmentShape(cmd);
    NestedCommandShrinks(cmd);
    if inner == "" {
      assert Split(inner) == [""];
    }
  }

  /** A keyword that opens with a sigil or `#` is no settings keyword. */
  lemma MarkedKeywordIsNoSetting(keyword: string)
    requires keyword != "" && (IsSigil(keyword[0]) || keyword[0] == '#')
    ensures SettingOf(keyword) == None
  {
    assert Lower(keyword)[0] == keyword[0];
  }

  /** The value an assignment line classifies to. */
  lemma AssignmentShape(cmd: string)
    requires var keyword := Split(cmd)[0]; keyword != "" && IsSigil(keyword[0])
    ensures var segs := Split(cmd); var inner := Join(segs[1..], Delimiter);
      Classify(cmd) == Assignment(VariableName(segs[0]), inner, Classify(inner))
  {
    MarkedKeywordIsNoSetting(Split(cmd)[0]);
  }

  /** The four-space-joined parts of a keyword call, classified again, give
      back that keyword call. */
  lemma {:induction false} ClassifyKeywordLine(keyword: string, args: seq<string>)
    requires WellSplit([keyword] + args)
    requires keyword != "" && SettingOf(keyword) == None
    requires !IsSigil(keyword[0]) && keyword[0] != '#'
    ensures Classify(Join([keyword] + args, Delimiter)) == KeywordCall(keyword, args)
    ensures Calls(Classify(Join([keyword] + args, Delimiter))) == [RunKeyword(keyword, args)]
  {
    SplitJoin([keyword] + args, Delimiter);
    assert ([keyword] + args)[1..] == args;
  }

  /** A line whose segments are `target` followed by `rest`, `target`
      opening with a sigil: an assignment of the rest, joined with four
      spaces. */
  lemma AssignmentOfSegments(line: string, target: string, rest: seq<string>)
    requires Split(line) == [target] + rest
    requires target != "" && IsSigil(target[0])
    ensures Classify(line)
      == Assignment(VariableName(target), Join(rest, Delimiter), Classify(Join(rest, Delimiter)))
  {
    assert Split(line)[0] == target && Split(line)[1..] == rest;
    AssignmentShape(line);
  }

  /** An assignment whose nested dispatch is a keyword call runs that call
      and stores its value. */
  lemma AssignedKeywordCalls(variable: string, command: string, keyword: string, args: seq<string>)
    ensures Calls(Assignment(variable, command, KeywordCall(keyword, args)))
      == [RunKeyword(keyword, args), SetLocalVariable(variable, Some(RunKeyword(keyword, args)))]
  {
  }

  /** The segments of an assignment line, joined with four spaces, split
      back into the target followed by the rest, which is well formed. */
  lemma JoinedAssignmentSplits(target: string, keyword: string, args: seq<string>)
    requires WellSplit([target, keyword] + args)
    ensures Split(Join([target, keyword] + args, Delimiter)) == [target] + ([keyword] + args)
    ensures WellSplit([keyword] + args)
  {
    var segs := [target, keyword] + args;
    SplitJoin(segs, Delimiter);
    assert segs == [target] + ([keyword] + args);
    WellSplitTail(segs);
    assert segs[1..] == [keyword] + args;
  }

  /** `target  keyword  args...`: exactly one nested keyword call, whose
      value is stored under the target's variable name. */
  lemma {:induction false} ClassifyAssignmentLine(target: string, keyword: string, args: seq<string>)
    requires WellSplit([target, keyword] + args)
    requires target != "" && IsSigil(target[0])
    requires keyword != "" && SettingOf(keyword) == None
    requires !IsSigil(keyword[0]) && keyword[0] != '#'
    ensures var d := Classify(Join([target, keyword] + args, Delimiter));
      && d == Assignment(VariableName(target), Join([keyword] + args, Delimiter), KeywordCall(keyword, args))
      && Calls(d) == [RunKeyword(keyword, args),
                      SetLocalVariable(VariableName(target), Some(RunKeyword(keyword, args)))]
  {
    var rest := [keyword] + args;
    JoinedAssignmentSplits(target, keyword, args);
    AssignmentOfSegments(Join([target, keyword] + args, Delimiter), target, rest);
    ClassifyKeywordLine(keyword, args);
    AssignedKeywordCalls(VariableName(target), Join(rest, Delimiter), keyword, args);
  }

  /** A keyword-call line that gains one more final segment is the same
      keyword call with one more final argument. */
  lemma ClassifyExtraArgument(cmd: string, longer: string, extra: string)
    requires Classify(cmd).KeywordCall?
    requires Split(longer) == Split(cmd) + [extra]
    ensures Classify(longer) == KeywordCall(Classify(cmd).keyword, Classify(cmd).args + [extra])
  {
    assert Split(longer)[0] == Split(cmd)[0];
    assert Split(longer)[1..] == Split(cmd)[1..] + [extra];
  }
}
