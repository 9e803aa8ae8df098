/**
 * `rfprint(obj)`: the REPL prints through the runtime's own `Log To Console`
 * keyword, one dispatch per line of the text, with every space written as
 * the runtime's `${SPACE}` variable so that it survives tokenisation.
 */
module Console {
  import opened Wrappers
  import opened Text
  import opened Lexer
  import opened Dispatcher

  /** The logging keyword every printed line is sent to. */
  const LogKeyword: string := "Log To Console"

  /** The runtime's variable for one literal space. */
  const SpaceToken: string := "${SPACE}"

  /** The message argument for one line: every space becomes `${SPACE}`. */
  function Payload(line: string): (r: string)
    ensures ' ' !in r
    ensures ' ' !in line ==> r == line
  {
    Replace(line, ' ', SpaceToken)
  }

  /** Every space of the line, and only a space, is written as `${SPACE}`:
      the payload of two parts around a space is their payloads around
      the token, and a line of one other character is logged as it is. */
  lemma PayloadAroundSpace(a: string, b: string)
    ensures Payload(a + " " + b) == Payload(a) + SpaceToken + Payload(b)
    ensures Payload(" ") == SpaceToken
  {
    ReplaceAppend(a + " ", b, ' ', SpaceToken);
    ReplaceAppend(a, " ", ' ', SpaceToken);
  }

  /** The command `rfprint` dispatches for one line,
      `'Log To Console    ' + payload`. */
  function LogCommand(line: string): string {
    LogKeyword + Delimiter + Payload(line)
  }

  /** `rfprint(text)`, for a text value: the commands it dispatches, in order. */
  method RfPrint(text: string) returns (dispatched: seq<string>)
    ensures |dispatched| == |SplitLines(text)|
    ensures forall k :: 0 <= k < |dispatched| ==> dispatched[k] == LogCommand(SplitLines(text)[k])
  {
    var lines := SplitLines(text);
    dispatched := [];
    for i := 0 to |lines|
      invariant |dispatched| == i
      invariant forall k :: 0 <= k < i ==> dispatched[k] == LogCommand(lines[k])
    {
      var line := lines[i];
      line := Replace(line, ' ', SpaceToken);
      dispatched := dispatched + [LogKeyword + Delimiter + line];
    }
  }

  /** The only whitespace in `line` is the plain space. */
  predicate OnlySpaces(line: string) {
    forall k :: 0 <= k < |line| ==> IsWhitespace(line[k]) ==> line[k] == ' '
  }

  /** Once its spaces are replaced, such a line holds no whitespace. */
  lemma PayloadHasNoWhitespace(line: string)
    requires OnlySpaces(line)
    ensures HasNoWhitespace(Payload(line))
  {
    var payload := Payload(line);
    assert HasNoWhitespace(SpaceToken);
    forall k | 0 <= k < |payload| ensures !IsWhitespace(payload[k]) {
      assert payload[k] in payload;
      if payload[k] in line {
        var j :| 0 <= j < |line| && line[j] == payload[k];
      }
    }
  }

  /** The logging keyword is one segment, not a setting, not an assignment
      and not a comment. */
  lemma LogKeywordIsPlain()
    ensures NoPair(LogKeyword) && StartsClean(LogKeyword) && EndsClean(LogKeyword)
    ensures SettingOf(LogKeyword) == None
    ensures !IsSigil(LogKeyword[0]) && LogKeyword[0] != '#'
  {
    assert Lower(LogKeyword)[0] == 'l';
  }

  /** A line is logged whole exactly when its payload has no whitespace
      pair and does not start with whitespace (a lone tab inside is fine):
      its dispatched command splits into exactly the keyword and the
      payload, and is classified as one `Log To Console` call with it. */
  lemma LogCommandSplits(line: string)
    requires NoPair(Payload(line)) && StartsClean(Payload(line))
    ensures Split(LogCommand(line)) == [LogKeyword, Payload(line)]
    ensures Classify(LogCommand(line)) == KeywordCall(LogKeyword, [Payload(line)])
  {
    var payload := Payload(line);
    LogKeywordIsPlain();
    assert WellSplit([LogKeyword, payload]);
    assert Join([LogKeyword, payload], Delimiter) == LogCommand(line);
    SplitJoin([LogKeyword, payload], Delimiter);
    ClassifyKeywordLine(LogKeyword, [payload]);
    assert [LogKeyword] + [payload] == [LogKeyword, payload];
  }

  /** The common case: a line whose only whitespace is plain spaces has a
      payload without any whitespace, so it is logged whole. */
  lemma LogCommandParses(line: string)
    requires OnlySpaces(line)
    ensures HasNoWhitespace(Payload(line))
    ensures Split(LogCommand(line)) == [LogKeyword, Payload(line)]
    ensures Classify(LogCommand(line)) == KeywordCall(LogKeyword, [Payload(line)])
  {
    PayloadHasNoWhitespace(line);
    LogCommandSplits(line);
  }
}
