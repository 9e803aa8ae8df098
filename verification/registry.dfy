/**
 * `COMMANDS` and `add_commands`: the process-wide list of known command
 * names that tab completion offers. It starts with the two settings
 * keywords and only ever grows.
 */
module Registry {

  class CommandRegistry {
    /** The known command names, in insertion order; duplicates allowed. */
    var commands: seq<string>

    /** `COMMANDS = ['Library', 'Resource']`. */
    constructor ()
      ensures commands == ["Library", "Resource"]
    {
      commands := ["Library", "Resource"];
    }

    /** `add_commands(lib_or_res)`: appends the name of every keyword the
        library or resource documents, in documentation order. Reading the
        documentation is done by the runtime; its keyword names are the
        argument here. */
    method AddCommands(keywordNames: seq<string>)
      modifies this
      ensures commands == old(commands) + keywordNames
      ensures |commands| == |old(commands)| + |keywordNames|
      ensures commands[..|old(commands)|] == old(commands)
    {
      for i := 0 to |keywordNames|
        invariant commands == old(commands) + keywordNames[..i]
      {
        commands := commands + [keywordNames[i]];
      }
      assert keywordNames[..|keywordNames|] == keywordNames;
    }
  }
}
