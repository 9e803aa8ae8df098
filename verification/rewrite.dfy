/**
 * `alter_commands`: the line-normalisation hook the REPL applies before
 * dispatching. An `open browser` call that does not already configure the
 * browser gets a Chrome option appended that silences its logging.
 */
module Rewrite {
  import opened Text
  import opened Lexer
  import opened Dispatcher

  /** The marker whose presence means the line already sets the option. */
  const OptionMarker: string := "options=add_experimental_option"

  /** The argument that is appended,
      `options=add_experimental_option("excludeSwitches", ["enable-logging"])`. */
  const OptionArgument: string := OptionMarker + "(\"excludeSwitches\"," + " " + "[\"enable-logging\"])"

  /** What is appended: two spaces (a delimiter) and the argument. */
  const OptionClause: string := "  " + OptionArgument

  /** The line asks to open a browser without configuring it. */
  predicate NeedsBrowserOptions(cmd: string) {
    StartsWith(Lower(cmd), "open browser") && !Contains(cmd, OptionMarker)
  }

  /** `alter_commands(cmd)`: the line is returned unchanged unless it needs
      the browser option, in which case the option clause is appended. */
  function AlterCommands(cmd: string): (r: string)
    ensures NeedsBrowserOptions(cmd) ==> r == cmd + OptionClause
    ensures !NeedsBrowserOptions(cmd) ==> r == cmd
    ensures StartsWith(r, cmd)
  {
    if NeedsBrowserOptions(cmd) then cmd + OptionClause else cmd
  }

  /** Once altered, a line carries the marker and needs no further option. */
  lemma AlteredHasMarker(cmd: string)
    requires NeedsBrowserOptions(cmd)
    ensures Contains(AlterCommands(cmd), OptionMarker)
    ensures !NeedsBrowserOptions(AlterCommands(cmd))
  {
    var r := cmd + OptionClause;
    assert r[|cmd| + 2..|cmd| + 2 + |OptionMarker|] == OptionMarker;
    ContainsAt(r, OptionMarker, |cmd| + 2);
  }

  /** Altering an altered line changes nothing. */
  lemma AlterCommandsIdempotent(cmd: string)
    ensures AlterCommands(AlterCommands(cmd)) == AlterCommands(cmd)
  {
    if NeedsBrowserOptions(cmd) {
      AlteredHasMarker(cmd);
    }
  }

  lemma MarkerHasNoWhitespace()
    ensures HasNoWhitespace(OptionMarker)
  {
  }

  lemma OptionValuesHaveNoWhitespace()
    ensures HasNoWhitespace("(\"excludeSwitches\",")
    ensures HasNoWhitespace("[\"enable-logging\"])")
  {
  }

  /** The appended argument is a single segment of its own. */
  lemma OptionArgumentIsSegment()
    ensures NoPair(OptionArgument) && StartsClean(OptionArgument)
    ensures Split(OptionArgument) == [OptionArgument]
  {
    var word := OptionMarker + "(\"excludeSwitches\",";
    MarkerHasNoWhitespace();
    OptionValuesHaveNoWhitespace();
    NoWhitespaceConcat(OptionMarker, "(\"excludeSwitches\",");
    NoPairAroundSpace(word, "[\"enable-logging\"])");
    SplitNoPair(OptionArgument);
  }

  /** A line that opens a browser is an ordinary keyword call. */
  lemma BrowserLineIsKeywordCall(cmd: string)
    requires StartsWith(Lower(cmd), "open browser")
    ensures Classify(cmd).KeywordCall?
  {
    var keyword := Split(cmd)[0];
    assert Lower(cmd)[0] == 'o';
    assert !PairAt(cmd, 0);
    assert keyword != [] && keyword[0] == cmd[0];
    assert Lower(keyword)[0] == 'o';
  }

  /** On a line without trailing whitespace, the alteration adds exactly one
      final argument, the option, to the `Open Browser` keyword call. */
  lemma AlteredBrowserCall(cmd: string)
    requires NeedsBrowserOptions(cmd) && EndsClean(cmd)
    ensures Split(AlterCommands(cmd)) == Split(cmd) + [OptionArgument]
    ensures Classify(cmd).KeywordCall?
    ensures Classify(AlterCommands(cmd))
         == KeywordCall(Classify(cmd).keyword, Classify(cmd).args + [OptionArgument])
  {
    var altered := AlterCommands(cmd);
    assert IsDelimiter("  ");
    OptionArgumentIsSegment();
    assert altered == cmd + "  " + OptionArgument;
    SplitConcat(cmd, "  ", OptionArgument);
    BrowserLineIsKeywordCall(cmd);
    ClassifyExtraArgument(cmd, altered, OptionArgument);
  }
}
