/**
 * `CLISubCommandGroup` of `src/commandGroup.ts`: a registry from lower-cased
 * names and aliases to commands, the help, not-found and sub-help texts, and
 * the dispatch step that shifts one token and forwards the rest to a child.
 * A child's own `run` is not modelled: dispatch reports the call it makes.
 */
module CommandGroups {
  import opened CliTypes
  import opened Strings
  import opened CliUtils
  import opened Args

  // ------------------------------------------------------------ collaborators

  /** The logger: every `info` message is appended to `lines`. */
  class Logger {
    var lines: seq<string>

    constructor ()
      ensures lines == []
    {
      lines := [];
    }

    method Info(message: string)
      modifies this
      ensures lines == old(lines) + [message]
    {
      lines := lines + [message];
    }
  }

  /**
   * The per-call context (`CLICommandContext`): the raw arguments, the parent
   * command path that dispatch pushes onto, the environment and the logger.
   */
  class ExecContext {
    const rawArgs: seq<string>
    var rawParentArgs: seq<string>
    const environment: ExecEnv
    const logger: Logger

    /** A fresh context, as `handle` builds one for every call. */
    constructor (environment: ExecEnv, logger: Logger)
      ensures rawArgs == [] && rawParentArgs == []
      ensures this.environment == environment && this.logger == logger
    {
      rawArgs := [];
      rawParentArgs := [];
      this.environment := environment;
      this.logger := logger;
    }
  }

  /** The token array that `run` shifts in place and then hands on to the child. */
  class Argv {
    var tokens: seq<string>

    constructor (tokens: seq<string>)
      ensures this.tokens == tokens
    {
      this.tokens := tokens;
    }

    /** `Array.prototype.shift`: removes and returns the first token, if any. */
    method Shift() returns (first: Option<string>)
      modifies this
      ensures old(tokens) == [] ==> first == None && tokens == []
      ensures old(tokens) != [] ==> first == Some(old(tokens)[0]) && tokens == old(tokens)[1..]
    {
      if tokens == [] {
        first := None;
      } else {
        first := Some(tokens[0]);
        tokens := tokens[1..];
      }
    }
  }

  // ---------------------------------------------------------------- registry

  function AliasName(a: Alias): string {
    match a
    case PlainAlias(n) => n
    case NamedAlias(n, _) => n
  }

  /** The registry keys `register` writes for a command: its lower-cased name, then each lower-cased alias name. */
  function CommandKeys(c: Command): (ks: seq<string>)
    ensures |ks| == |c.aliases| + 1 && ks[0] == Lower(c.name)
    ensures forall i :: 0 <= i < |c.aliases| ==> ks[i + 1] == Lower(AliasName(c.aliases[i]))
    ensures forall i :: 0 <= i < |ks| ==> IsLower(ks[i])
  {
    LowerIsLower(c.name);
    forall i | 0 <= i < |c.aliases| ensures IsLower(Lower(AliasName(c.aliases[i]))) {
      LowerIsLower(AliasName(c.aliases[i]));
    }
    [Lower(c.name)] + seq(|c.aliases|, i requires 0 <= i < |c.aliases| => Lower(AliasName(c.aliases[i])))
  }

  /** The registry after `register(c)`: every key of `c` maps to `c`, every other key is kept. */
  function Registered(registry: map<string, Command>, c: Command): map<string, Command> {
    BindKeys(registry, CommandKeys(c), c)
  }

  /** The registry with each of the keys `ks` mapped to `c`. */
  function BindKeys(registry: map<string, Command>, ks: seq<string>, c: Command): map<string, Command> {
    registry + map k | k in ks :: c
  }

  lemma BindKeysSnoc(registry: map<string, Command>, ks: seq<string>, key: string, c: Command)
    ensures BindKeys(registry, ks + [key], c) == BindKeys(registry, ks, c)[key := c]
  {
    var a, b := BindKeys(registry, ks + [key], c), BindKeys(registry, ks, c)[key := c];
    assert forall k :: k in ks + [key] <==> k in ks || k == key;
    assert a.Keys == b.Keys;
  }

  /** Writing key `ks[i]` after the keys before it is writing the keys up to and including it. */
  lemma RegisterStep(registry: map<string, Command>, keys: seq<string>, ks: seq<string>, i: nat, c: Command)
    requires i < |ks|
    ensures BindKeys(registry, ks[..i], c)[ks[i] := c] == BindKeys(registry, ks[..i + 1], c)
    ensures var p := AppendMissing(keys, ks[..i]);
            (if ks[i] in p then p else p + [ks[i]]) == AppendMissing(keys, ks[..i + 1])
  {
    assert ks[..i + 1] == ks[..i] + [ks[i]];
    BindKeysSnoc(registry, ks[..i], ks[i], c);
    assert ks[..i + 1][..i] == ks[..i];
  }

  lemma RegisteredMapsKeysToCommand(registry: map<string, Command>, c: Command, k: string)
    ensures k in CommandKeys(c) ==> k in Registered(registry, c) && Registered(registry, c)[k] == c
    ensures k !in CommandKeys(c) ==>
      (k in Registered(registry, c) <==> k in registry) &&
      (k in registry ==> Registered(registry, c)[k] == registry[k])
  {
  }

  /**
   * The key order after writing keys `ks` in turn: a new key goes to the end,
   * an existing one keeps its place (the iteration order of a JavaScript object
   * for non-numeric keys).
   */
  function AppendMissing(keys: seq<string>, ks: seq<string>): seq<string>
    decreases |ks|
  {
    if ks == [] then keys
    else
      var p := AppendMissing(keys, ks[..|ks| - 1]);
      if ks[|ks| - 1] in p then p else p + [ks[|ks| - 1]]
  }

  predicate Distinct(keys: seq<string>) {
    forall i, j :: 0 <= i < j < |keys| ==> keys[i] != keys[j]
  }

  /** Writing keys keeps the old order in front, adds exactly the new keys and repeats none. */
  lemma {:induction false} AppendMissingKeys(keys: seq<string>, ks: seq<string>)
    ensures var r := AppendMissing(keys, ks);
            && |keys| <= |r| && r[..|keys|] == keys
            && (forall k :: k in r <==> k in keys || k in ks)
            && (Distinct(keys) ==> Distinct(r))
    decreases |ks|
  {
    if ks != [] {
      var front := ks[..|ks| - 1];
      AppendMissingKeys(keys, front);
      var p := AppendMissing(keys, front);
      assert forall k :: k in ks <==> k in front || k == ks[|ks| - 1] by {
        assert ks == front + [ks[|ks| - 1]];
      }
      if ks[|ks| - 1] !in p {
        assert (p + [ks[|ks| - 1]])[..|keys|] == p[..|keys|];
      }
    }
  }

  // --------------------------------------------------------------- messages

  /** The path prefix the messages put before command names. */
  function PathPrefix(parentArgs: seq<string>): string {
    ParseParentArgs(parentArgs, true)
  }

  /** Whether some alias of the command asks to be shown in the help listing. */
  predicate ShowsAliasInHelp(cmd: Command) {
    exists i :: 0 <= i < |cmd.aliases| && cmd.aliases[i].NamedAlias? && cmd.aliases[i].showInHelp
  }

  /**
   * The help line for one registry entry: none for an entry not allowed in the
   * environment; a description line for the key equal to the command's name;
   * for any other key an "Alias for" line, only when some alias of the command
   * is shown in help.
   */
  function HelpEntry(key: string, cmd: Command, prefix: string, env: ExecEnv): Option<string> {
    if !CanRunInCurrentEnvironment(EnvAsSpec(env), cmd) then None
    else if key != cmd.name then
      if ShowsAliasInHelp(cmd) then Some(" - " + prefix + key + ": Alias for " + cmd.name) else None
    else Some(" - " + prefix + key + ": " + cmd.description)
  }

  /** The help lines of the registry entries, in key order. */
  function HelpLines(keys: seq<string>, registry: map<string, Command>, prefix: string, env: ExecEnv): seq<string>
    requires forall k :: k in keys ==> k in registry
    decreases |keys|
  {
    if keys == [] then []
    else
      var last := keys[|keys| - 1];
      var front := HelpLines(keys[..|keys| - 1], registry, prefix, env);
      match HelpEntry(last, registry[last], prefix, env)
      case Some(line) => front + [line]
      case None => front
  }

  function HelpHeader(prefix: string): string {
    "Available commands:\n - " + prefix + "help: Show available commands"
  }

  /** The text `run_help` logs: the header, then one line per listed entry. */
  function HelpMessage(keys: seq<string>, registry: map<string, Command>, prefix: string, env: ExecEnv): string
    requires forall k :: k in keys ==> k in registry
  {
    Join([HelpHeader(prefix)] + HelpLines(keys, registry, prefix, env), "\n")
  }

  /** The help message one registry key further on: the key's line, if any, is appended. */
  lemma HelpMessageStep(keys: seq<string>, registry: map<string, Command>, prefix: string, env: ExecEnv, i: nat)
    requires forall k :: k in keys ==> k in registry
    requires i < |keys|
    ensures var before := Join([HelpHeader(prefix)] + HelpLines(keys[..i], registry, prefix, env), "\n");
            var entry := HelpEntry(keys[i], registry[keys[i]], prefix, env);
            Join([HelpHeader(prefix)] + HelpLines(keys[..i + 1], registry, prefix, env), "\n") ==
              if entry.Some? then before + "\n" + entry.value else before
  {
    assert keys[..i + 1][..i] == keys[..i];
    var entry := HelpEntry(keys[i], registry[keys[i]], prefix, env);
    if entry.Some? {
      var front := [HelpHeader(prefix)] + HelpLines(keys[..i], registry, prefix, env);
      JoinAppend(front, entry.value, "\n");
      assert front + [entry.value] == [HelpHeader(prefix)] + HelpLines(keys[..i + 1], registry, prefix, env);
    }
  }

  /** A line is listed exactly when some registry key yields it. */
  lemma {:induction false} HelpLinesExactly(
    keys: seq<string>, registry: map<string, Command>, prefix: string, env: ExecEnv, line: string)
    requires forall k :: k in keys ==> k in registry
    ensures line in HelpLines(keys, registry, prefix, env) <==>
      exists k :: k in keys && HelpEntry(k, registry[k], prefix, env) == Some(line)
    decreases |keys|
  {
    if keys != [] {
      var front := keys[..|keys| - 1];
      var last := keys[|keys| - 1];
      assert keys == front + [last];
      HelpLinesExactly(front, registry, prefix, env, line);
    }
  }

  /** The help message begins with the header. */
  lemma HelpMessageStartsWithHeader(keys: seq<string>, registry: map<string, Command>, prefix: string, env: ExecEnv)
    requires forall k :: k in keys ==> k in registry
    ensures var m := HelpMessage(keys, registry, prefix, env);
            |HelpHeader(prefix)| <= |m| && m[..|HelpHeader(prefix)|] == HelpHeader(prefix)
  {
    var lines := HelpLines(keys, registry, prefix, env);
    if lines != [] {
      assert ([HelpHeader(prefix)] + lines)[1..] == lines;
    }
  }

  /**
   * Keys are lower-cased by `register` but compared with the command's own
   * name: under a lower-case key, a command whose name is not lower-case is
   * listed at most as an alias of itself, never with its description.
   */
  lemma MixedCaseNameNotDescribed(key: string, cmd: Command, prefix: string, env: ExecEnv)
    requires IsLower(key) && !IsLower(cmd.name)
    ensures HelpEntry(key, cmd, prefix, env) ==
      if CanRunInCurrentEnvironment(EnvAsSpec(env), cmd) && ShowsAliasInHelp(cmd)
      then Some(" - " + prefix + key + ": Alias for " + cmd.name)
      else None
  {
    assert key != cmd.name;
  }

  function NotFoundMessage(prefix: string, commandName: string): string {
    "Command '" + prefix + commandName + "' not found. Type \"" + prefix + "help\" for available commands."
  }

  /** `String(alias)` as `Array.prototype.join` renders it: a record alias prints as `[object Object]`. */
  function AliasText(a: Alias): string {
    match a
    case PlainAlias(n) => n
    case NamedAlias(_, _) => "[object Object]"
  }

  function AliasTexts(aliases: seq<Alias>): (r: seq<string>)
    ensures |r| == |aliases|
    ensures forall i :: 0 <= i < |aliases| ==> r[i] == AliasText(aliases[i])
  {
    seq(|aliases|, i requires 0 <= i < |aliases| => AliasText(aliases[i]))
  }

  function SubHelpMessage(prefix: string, cmd: Command): string {
    "Command '" + prefix + cmd.name + "':\n" +
    "Description: " + cmd.description + "\n" +
    "Usage: '" + prefix + cmd.usage + "'\n" +
    "Aliases: " + Join(AliasTexts(cmd.aliases), ", ")
  }

  // ----------------------------------------------------------------- dispatch

  /** Where one dispatch step ends. */
  datatype RunOutcome =
    | EmptyHelp                                                   // no command name: `run_empty`
    | Help                                                        // "help", "--help" or "-h"
    | NotFound(commandName: string)                               // unknown or not allowed here
    | SubHelp(cmd: Command)                                       // `<name> --help` or `<name> -h`
    | Forwarded(commandName: string, cmd: Command, rest: seq<string>) // the child's `run` is called

  predicate IsHelpCommand(t: string) {
    t == "help" || t == "--help" || t == "-h"
  }

  predicate IsHelpFlag(t: string) {
    t == "--help" || t == "-h"
  }

  /**
   * The dispatch state machine. The first token is taken as the command name;
   * a missing or empty one shows help, as does a help token. Otherwise the
   * name is looked up as it is, with no lower-casing: a miss, or an entry not
   * allowed in the environment, is "not found". A next token of `--help` or
   * `-h` asks for the entry's own help; anything else goes to the entry.
   */
  function Dispatch(registry: map<string, Command>, tokens: seq<string>, env: ExecEnv): RunOutcome {
    if tokens == [] || tokens[0] == "" then EmptyHelp
    else
      var name := tokens[0];
      if IsHelpCommand(name) then Help
      else if name !in registry || !CanRunInCurrentEnvironment(EnvAsSpec(env), registry[name]) then NotFound(name)
      else if |tokens| > 1 && IsHelpFlag(tokens[1]) then SubHelp(registry[name])
      else Forwarded(name, registry[name], tokens[1..])
  }

  /** What one dispatch step logs; a forwarded call logs nothing itself. */
  function Output(outcome: RunOutcome, keys: seq<string>, registry: map<string, Command>, prefix: string, env: ExecEnv)
    : seq<string>
    requires forall k :: k in keys ==> k in registry
  {
    match outcome
    case EmptyHelp => [HelpMessage(keys, registry, prefix, env)]
    case Help => [HelpMessage(keys, registry, prefix, env)]
    case NotFound(name) => [NotFoundMessage(prefix, name)]
    case SubHelp(cmd) => [SubHelpMessage(prefix, cmd)]
    case Forwarded(_, _, _) => []
  }

  /** A token with an upper-case letter never matches a key `register` wrote. */
  lemma {:induction false} MixedCaseTokenNotFound(
    registry: map<string, Command>, name: string, rest: seq<string>, env: ExecEnv)
    requires forall k :: k in registry ==> IsLower(k)
    requires !IsLower(name)
    ensures Dispatch(registry, [name] + rest, env) == NotFound(name)
  {
    assert IsLower("help") && IsLower("--help") && IsLower("-h") && IsLower("");
    assert ([name] + rest)[0] == name;
  }

  /**
   * After `register(c)`, each key of `c` that is not an empty or help token
   * reaches `c` when `c` may run in the environment, and forwards the rest
   * unless it asks for `c`'s help.
   */
  lemma RegisteredKeyDispatches(
    registry: map<string, Command>, c: Command, key: string, rest: seq<string>, env: ExecEnv)
    requires key in CommandKeys(c) && key != "" && !IsHelpCommand(key)
    requires CanRunInCurrentEnvironment(EnvAsSpec(env), c)
    ensures var o := Dispatch(Registered(registry, c), [key] + rest, env);
            if rest != [] && IsHelpFlag(rest[0]) then o == SubHelp(c) else o == Forwarded(key, c, rest)
  {
    RegisteredMapsKeysToCommand(registry, c, key);
    assert ([key] + rest)[0] == key && ([key] + rest)[1..] == rest;
  }

  // -------------------------------------------------------------- the group

  /** The options a group is built from; absent fields take the source's defaults. */
  datatype GroupOptions = GroupOptions(
    name: string, description: Option<string>, allowedEnvironment: Option<EnvSpec>, args: ArgSpec)

  class CommandGroup {
    const name: string
    const description: string
    const allowedEnvironment: EnvSpec
    const argSpec: ArgSpec
    /** The registry keys in insertion order, the order `Object.entries` lists them. */
    var keys: seq<string>
    var registry: map<string, Command>

    /** The keys list the registry's keys once each, all lower-cased. */
    ghost predicate Valid()
      reads this
    {
      && (forall k :: k in keys <==> k in registry)
      && Distinct(keys)
      && (forall k :: k in registry ==> IsLower(k))
    }

    /** An empty group; a missing or empty description and a missing environment take their defaults. */
    constructor (options: GroupOptions)
      ensures Valid() && keys == [] && registry == map[]
      ensures name == options.name && argSpec == options.args
      ensures description ==
        if options.description.None? || options.description.value == "" then "No description provided."
        else options.description.value
      ensures allowedEnvironment == options.allowedEnvironment.GetOr(AnyEnv)
    {
      name := options.name;
      description :=
        if options.description.None? || options.description.value == "" then "No description provided."
        else options.description.value;
      allowedEnvironment := options.allowedEnvironment.GetOr(AnyEnv);
      argSpec := options.args;
      keys := [];
      registry := map[];
    }

    /** Writes one registry key. */
    method Put(key: string, c: Command)
      requires Valid() && IsLower(key)
      modifies this
      ensures Valid()
      ensures registry == old(registry)[key := c]
      ensures keys == if key in old(keys) then old(keys) else old(keys) + [key]
    {
      if key !in registry {
        keys := keys + [key];
      }
      registry := registry[key := c];
    }

    /**
     * `register(c)`: maps the lower-cased name and every lower-cased alias
     * name to `c`, overwriting earlier mappings of those keys and leaving all
     * other keys as they were.
     */
    method Register(c: Command)
      requires Valid()
      modifies this
      ensures Valid()
      ensures registry == Registered(old(registry), c)
      ensures keys == AppendMissing(old(keys), CommandKeys(c))
    {
      var ks := CommandKeys(c);
      for i := 0 to |ks|
        invariant Valid()
        invariant registry == BindKeys(old(registry), ks[..i], c)
        invariant keys == AppendMissing(old(keys), ks[..i])
      {
        RegisterStep(old(registry), old(keys), ks, i, c);
        Put(ks[i], c);
      }
      assert ks[..|ks|] == ks;
    }

    /** `run_help`: logs the help listing for the current parent path and environment. */
    method RunHelp(meta: ExecContext)
      requires Valid()
      modifies meta.logger
      ensures meta.logger.lines ==
        old(meta.logger.lines) + [HelpMessage(keys, registry, PathPrefix(meta.rawParentArgs), meta.environment)]
    {
      var prefix := PathPrefix(meta.rawParentArgs);
      var message := HelpHeader(prefix);
      for i := 0 to |keys|
        invariant message == Join([HelpHeader(prefix)] + HelpLines(keys[..i], registry, prefix, meta.environment), "\n")
        invariant meta.logger.lines == old(meta.logger.lines)
      {
        var entry := HelpEntry(keys[i], registry[keys[i]], prefix, meta.environment);
        HelpMessageStep(keys, registry, prefix, meta.environment, i);
        if entry.Some? {
          message := message + "\n" + entry.value;
        }
      }
      assert keys[..|keys|] == keys;
      assert message == HelpMessage(keys, registry, prefix, meta.environment);
      meta.logger.Info(message);
    }

    /** `run_empty`: shows the help listing. */
    method RunEmpty(meta: ExecContext)
      requires Valid()
      modifies meta.logger
      ensures meta.logger.lines ==
        old(meta.logger.lines) + [HelpMessage(keys, registry, PathPrefix(meta.rawParentArgs), meta.environment)]
    {
      RunHelp(meta);
    }

    /** `run_notFound`: names the missing path and points at `help`. */
    method RunNotFound(commandName: string, meta: ExecContext)
      modifies meta.logger
      ensures meta.logger.lines ==
        old(meta.logger.lines) + [NotFoundMessage(PathPrefix(meta.rawParentArgs), commandName)]
    {
      meta.logger.Info(NotFoundMessage(PathPrefix(meta.rawParentArgs), commandName));
    }

    /** `run_sub_help`: the command's description, usage and aliases. */
    method RunSubHelp(cmd: Command, meta: ExecContext)
      modifies meta.logger
      ensures meta.logger.lines ==
        old(meta.logger.lines) + [SubHelpMessage(PathPrefix(meta.rawParentArgs), cmd)]
    {
      meta.logger.Info(SubHelpMessage(PathPrefix(meta.rawParentArgs), cmd));
    }

    /**
     * `run(args, meta)`: removes exactly the first token from `args`, logs what
     * the outcome calls for, and pushes the command name onto the parent path
     * only when it forwards; `args` then holds the tail the child receives.
     */
    method Run(args: Argv, meta: ExecContext) returns (outcome: RunOutcome)
      requires Valid()
      modifies args, meta, meta.logger
      ensures outcome == Dispatch(registry, old(args.tokens), meta.environment)
      ensures args.tokens == if old(args.tokens) == [] then [] else old(args.tokens)[1..]
      ensures outcome.Forwarded? ==> args.tokens == outcome.rest
      ensures meta.rawParentArgs ==
        if outcome.Forwarded? then old(meta.rawParentArgs) + [outcome.commandName] else old(meta.rawParentArgs)
      ensures meta.logger.lines == old(meta.logger.lines) +
        Output(outcome, keys, registry, PathPrefix(old(meta.rawParentArgs)), meta.environment)
    {
      ghost var tokens := args.tokens;
      var first := args.Shift();
      if first.None? || first.value == "" {
        RunEmpty(meta);
        return EmptyHelp;
      }
      var commandName := first.value;
      if IsHelpCommand(commandName) {
        RunHelp(meta);
        return Help;
      }
      if commandName !in registry || !CanRunInCurrentEnvironment(EnvAsSpec(meta.environment), registry[commandName]) {
        RunNotFound(commandName, meta);
        return NotFound(commandName);
      }
      var cmd := registry[commandName];
      if args.tokens != [] && IsHelpFlag(args.tokens[0]) {
        RunSubHelp(cmd, meta);
        return SubHelp(cmd);
      }
      meta.rawParentArgs := meta.rawParentArgs + [commandName];
      return Forwarded(commandName, cmd, args.tokens);
    }
  }

  /**
   * A help listing built after `register(c)` describes `c` when its name is
   * lower-case and it may run in the environment, unless a later
   * registration overwrote its key.
   */
  lemma RegisteredCommandListed(
    keys: seq<string>, registry: map<string, Command>, c: Command, prefix: string, env: ExecEnv)
    requires forall k :: k in keys <==> k in registry
    requires IsLower(c.name) && CanRunInCurrentEnvironment(EnvAsSpec(env), c)
    ensures var keys' := AppendMissing(keys, CommandKeys(c));
            var registry' := Registered(registry, c);
            && (forall k :: k in keys' ==> k in registry')
            && (" - " + prefix + c.name + ": " + c.description) in HelpLines(keys', registry', prefix, env)
  {
    var keys' := AppendMissing(keys, CommandKeys(c));
    var registry' := Registered(registry, c);
    AppendMissingKeys(keys, CommandKeys(c));
    IsLowerFixesLower(c.name);
    assert c.name in CommandKeys(c);
    RegisteredMapsKeysToCommand(registry, c, c.name);
    forall k | k in keys' ensures k in registry' {
      RegisteredMapsKeysToCommand(registry, c, k);
    }
    HelpLinesExactly(keys', registry', prefix, env, " - " + prefix + c.name + ": " + c.description);
  }
}
