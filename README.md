# CleverJS-CLI in Dafny

A model of the core of CleverJS-CLI, a TypeScript library for building
command-line applications out of nested command groups. The model covers:

- **Arguments** (`args.dfy`, module `Args`; `src/args.ts`).
  - The coercion of a raw token to a string, number, boolean or enum value.
  - The positional parser, with its cursor into `argv`, its defaults and its "missing required argument" error.
  - The run-time duplicate checks of `defineCLIArgSpecs`, with their exact messages.
  - The two rules the library enforces only through TypeScript types: positional ordering, and an enum flag's default lying among its allowed values.
- **Command groups** (`command_group.dfy`, module `CommandGroups`; `src/commandGroup.ts`).
  - A class with the registry as a map plus the insertion order of its keys.
  - `register`, which writes lower-cased name and alias keys.
  - The `run` state machine: shift the first token, show help, report not found, show a command's own help, or forward the rest to the command.
  - The exact texts of the help, not-found and sub-help messages.
- **Helpers** (`utils.dfy`, module `CliUtils`; `src/utils.ts`): the environment check, the rendering of the parent command path, and the bounded split `splitStrNTimes`.
- **The application** (`app.dfy`, module `CliApplication`; `src/app.ts`).
  - The root group.
  - The tokenising of a command line given as one string or as an array.
  - The shell-only `onEmpty`.
  - The fresh context built by each `handle` call, and the exit-on-error decision.
- **Shared pieces** (`strings.dfy`, `types.dfy`).
  - The JavaScript string operations these rely on (`toLowerCase`, `trim`, `split`, `join`, decimal literals) over `seq<char>`.
  - The shared vocabulary of environments, aliases and commands (`src/types.ts`).

Some choices about what stands for what:

- **Outputs.** The logger is a list of lines, and process exit is a boolean returned by `Handle`.
- **The forwarded child.** A registered command is the data its parent group reads. Calling its own `run` becomes the `Forwarded` outcome, which carries the command and the tail of the tokens. The value that call resolves to is a parameter of `Handle`.
- **Names used by `src/app.ts`.** It calls `this.dispatch` and `this.onHelp`, which no class implements: `dispatch` is only a deprecated declaration in the `CLIApp` interface (`src/app.ts:5-10`), and `onHelp` is declared nowhere. The model uses the group's `run` and `run_help` in their place.
- **The root group.** `CLIApp` extends the command group in the source. Here `CliApp` holds the root `CommandGroup`, and commands are registered directly on that group.

Three behaviours of the source that the model keeps as written:

- **`onEmpty` is never called.** `run` handles an empty command line with `run_empty` (`src/commandGroup.ts:75`), which always shows the help. So `handle("")` shows the help in the "runtime" environment as well, and `CliApplication.CliApp.OnEmpty` models a method nothing reaches.
- **Help ends a shell session.** The group's own handlers, help included, resolve to `undefined`. With `exitOnError` unset, a shell therefore exits after showing the help, as `CliApplication.ShellExitsWithoutForwarding` states.
- **Mixed-case names.** `register` writes lower-cased keys, but `run` looks up the raw token and `run_help` compares the key with the unlowered name. A command token with an upper-case letter is never found (`CommandGroups.MixedCaseTokenNotFound`), and a command with a mixed-case name is listed only as its own alias (`CommandGroups.MixedCaseNameNotDescribed`).

## Model

| member | source | states |
|---|---|---|
| CliUtils.CanRunInCurrentEnvironment | src/utils.ts:6-12 | a command allowed everywhere may always run; in a runtime or shell environment it may run iff it is allowed everywhere or in that environment; with "all" as the current environment only runtime commands (and universal ones) may run |
| CliUtils.ParentArgsRoundTrip | src/utils.ts:14-20 | for a non-empty parent path whose parts hold no space, splitting the rendered path (without its trailing space) on " " gives the parts back |
| CliUtils.SliceIndex | src/utils.ts:28-29 | the index `Array.slice` uses lies in `0..len`, and a non-negative index is clamped to `len` |
| CliUtils.SplitStrNTimes | src/utils.ts:26-32 | the result is the first `count` pieces of `split(delim)` (clamped as slice does), plus at most one more, which is the rest rejoined, present iff non-empty; at most `count + 1` pieces for `count >= 0`; when the tail was kept, or nothing was cut off, joining the result with the delimiter gives back the input |
| Strings.Trim | src/app.ts:71 | the trimmed line neither starts nor ends with ECMAScript whitespace |
| Strings.TrimIsSlice | src/app.ts:71 | `trim` keeps one contiguous slice of the input and removes only whitespace before and after it |
| Strings.Split | src/utils.ts:27 | with a non-empty delimiter, `split` yields at least one piece |
| Strings.JoinSplit | src/utils.ts:27-28 | joining the pieces of a split with the same delimiter gives back the string |
| Strings.SplitPiecesAvoidChar | src/app.ts:71 | no piece of a split on one character contains that character |
| Strings.ConcatSplitOnChar | src/app.ts:71 | the pieces of a split on a character, put together, are the string with that character removed |
| Strings.LowerIdempotent | src/app.ts:76 | lower-casing twice is lower-casing once |
| Args.CoerceValue | src/args.ts:35-94 | numbers fail exactly when not numeric, with `Expected number, got "<v>"`; booleans never fail and are true iff the lower-cased token is "true"; enums succeed iff the token is allowed and return it unchanged, else fail with `Expected one of [<allowed joined by ", ">], got "<v>"`; strings are returned unchanged; every success has the declared kind |
| Args.JsNumberOfIntToString | src/args.ts:39-52 | any integer's decimal literal reads back as that integer |
| Args.CoerceRender | src/args.ts:35-94 | round trip: a value of the declared kind, typed as its literal, coerces back to itself |
| Args.BooleanCoercionIgnoresCase | src/args.ts:54-60 | a token and its lower-cased form coerce to the same boolean |
| Args.Parse | src/args.ts:4-33 | the parse fails iff some spec at an index at or beyond the number of tokens is required without a default, and then names the first such spec in `Missing required argument: <name>`; on success the result has exactly the spec names as keys, and each spec not overwritten by a later one of the same name holds the coerced token at its own index, or its default when the tokens ran out (extra tokens are ignored) |
| Args.CoercionFailureIsStored | src/args.ts:9-26 | for any specs and tokens, a positional whose token fails to coerce gets that coercion error as its slot, and the parse cannot be failing at that positional |
| Args.ParseFailureIgnoresTokenText | src/args.ts:9-26 | whether the parse fails, and at which positional, depends only on the number of tokens and never on their text |
| Args.DefineCLIArgSpecs | src/args.ts:127-167 | for any lists (the ordering and enum-default rules are not checked at run time), fails iff a flag name, a non-empty flag short name or a positional name repeats; the failure message is the first one found, flags before positionals, as `Duplicate argument name detected: <n>` or `Duplicate argument short name detected: <s>`; otherwise returns both lists, an absent list becoming empty |
| Args.FlagsErrorIffDuplicate | src/args.ts:137-150 | the flag scan finds no error iff the flag names are distinct and the non-empty short names are distinct |
| Args.ArgsErrorIffDuplicate | src/args.ts:152-161 | the positional scan finds no error iff the positional names are distinct |
| Args.SpecErrorIffDuplicate | src/args.ts:127-167 | the whole check of `defineCLIArgSpecs` finds no error iff flag names, non-empty short names and positional names are each distinct |
| Args.ValidPositionalOrderIff | src/args.ts:285-299 | the corrected ordering rule holds iff a variadic positional can only be last and no required positional follows an optional one |
| Args.TypedPositionalOrderRejectsLoneOptional | src/args.ts:292-296 | the ordering type as written rejects a list holding one optional, non-variadic positional, a list that the rules allow |
| Args.TypedPositionalOrderAcceptsRequiredAfterOptional | src/args.ts:292-297 | the ordering type as written accepts `[optional, required, optional]`, a list that the rules forbid |
| Args.EnumDefaultCoerces | src/args.ts:277-283 | under the flag rule, an enum flag's default is itself an allowed value: it coerces to itself unchanged |
| CommandGroups.CommandKeys | src/commandGroup.ts:23-28 | the keys `register` writes are the lower-cased name, then each lower-cased alias name (string or record), in order |
| CommandGroups.RegisteredMapsKeysToCommand | src/commandGroup.ts:21-31 | after registering `c`, each of its keys maps to `c`, and every other key keeps its presence and its command |
| CommandGroups.AppendMissingKeys | src/commandGroup.ts:39 | writing keys keeps the earlier key order in front, adds exactly the new keys and never repeats one, which is the order `Object.entries` reports |
| CommandGroups.CommandGroup.constructor | src/commandGroup.ts:12-19 | an empty registry; a missing or empty description becomes "No description provided."; a missing environment becomes "all" |
| CommandGroups.CommandGroup.Register | src/commandGroup.ts:21-31 | the registry becomes the old one with every key of the command bound to it; the key order gains the new keys at the end; the registry invariant is kept: keys and registry agree, keys are distinct and lower-case |
| CommandGroups.CommandGroup.RunHelp | src/commandGroup.ts:33-52 | logs exactly one message: the header with the `help` line, then one line per registry entry in key order, as `HelpEntry` selects it |
| CommandGroups.HelpLinesExactly | src/commandGroup.ts:39-49 | a line is listed iff some registry key yields it: entries not allowed in the environment are skipped; a key other than the command's name is listed as "Alias for" only when some alias has `showInHelp`; the key equal to the name shows the description |
| CommandGroups.HelpMessageStartsWithHeader | src/commandGroup.ts:36-37 | the help message always starts with "Available commands:" and the path-prefixed `help` line |
| CommandGroups.MixedCaseNameNotDescribed | src/commandGroup.ts:21-49 | a command whose name is not lower-case is never listed with its description under a lower-cased key, only as an alias of itself, and only when an alias is shown |
| CommandGroups.RegisteredCommandListed | src/commandGroup.ts:21-52 | after registering a command whose name is lower-case and which may run in the environment, the help listing holds its description line |
| CommandGroups.CommandGroup.RunEmpty | src/commandGroup.ts:54-56 | logs the help listing |
| CommandGroups.CommandGroup.RunNotFound | src/commandGroup.ts:58-61 | logs `Command '<path><name>' not found. Type "<path>help" for available commands.` |
| CommandGroups.CommandGroup.RunSubHelp | src/commandGroup.ts:63-71 | logs the command's name, description, usage and aliases joined by ", ", with a record alias printed as `[object Object]` |
| CommandGroups.CommandGroup.Run | src/commandGroup.ts:73-90 | the outcome is the dispatch of the old tokens; exactly the first token is shifted off and the rest is what a forwarded command receives; the command name is pushed onto the parent path iff the call is forwarded; the log gains exactly the outcome's message under the old path prefix |
| CommandGroups.MixedCaseTokenNotFound | src/commandGroup.ts:21-84 | a command token with an upper-case letter is never found, because `run` looks names up without lower-casing them while `register` writes lower-cased keys |
| CommandGroups.RegisteredKeyDispatches | src/commandGroup.ts:83-89 | after registering `c`, each of its keys (other than an empty or help token) reaches `c` where `c` may run: it shows `c`'s own help after `--help`/`-h`, and otherwise forwards the remaining tokens |
| CliApplication.FilterNonEmpty | src/app.ts:71 | `filter(arg => arg)` returns no more strings than it is given, holds a string iff the input holds it non-empty, loses no characters, and leaves a list with no empty string unchanged |
| CliApplication.FilterNonEmptyConcat | src/app.ts:71 | the filter distributes over concatenation; with `FilterNonEmptySingle` this fixes the result as the non-empty strings in their order, each as often as it occurs |
| CliApplication.FilterNonEmptySingle | src/app.ts:71 | a one-string list is kept iff its string is non-empty |
| CliApplication.LineTokens | src/app.ts:71 | every token of a line is non-empty, has no space and is lower-case; together the tokens are the trimmed lower-cased line without its spaces |
| CliApplication.WordsTokens | src/app.ts:76 | array input keeps its length and order and each token is the word lower-cased |
| CliApplication.LowerWords | src/app.ts:76 | each word lower-cased, length kept, every result lower-case |
| CliApplication.TokenizeIdempotent | src/app.ts:68-77 | tokenising tokens again as an array changes nothing |
| CliApplication.LineAgreesWithWords | src/app.ts:68-77 | the two input forms agree: non-empty, space-free words with no whitespace at the line's ends give the same tokens in either form |
| CliApplication.ShouldExit | src/app.ts:79-83 | the process exits iff the result is falsy and `exitOnError` is true, or it is unset and the environment is "shell" |
| CliApplication.NoExitWhenDisabled | src/app.ts:79 | with `exitOnError` false, the process never exits |
| CliApplication.DispatchResult | src/commandGroup.ts:75-89 | only a forwarded call can resolve to a truthy value, and a forwarded call resolves to the child's result; the handlers the group answers itself resolve to `undefined` |
| CliApplication.ShellExitsWithoutForwarding | src/app.ts:79-83 | in a shell with `exitOnError` unset, every call the group answers itself (help included) ends the process |
| CliApplication.CliApp.constructor | src/app.ts:33-47 | the root group is named "root", described "CLI Root", allowed in "all" environments whatever the options say, has no positionals and takes `globalFlags` or no flags; the registry starts empty; the logger is the given one or a fresh one |
| CliApplication.CliApp.OnEmpty | src/app.ts:50-55 | logs the help listing in the "shell" environment and nothing in "runtime" |
| CommandGroups.ExecContext.constructor | src/app.ts:59-64 | a context with empty `raw_args`, empty `raw_parent_args`, the given environment and the application's logger |
| CliApplication.CliApp.Handle | src/app.ts:57-84 | dispatches the tokens from a fresh context, so messages carry no path prefix; the outcome is the dispatch of the tokenised input on the root registry; the log gains exactly that outcome's message; the exit decision is `ShouldExit` of the setting, the environment and the result |

## Left out

- Unicode case mapping: `toLowerCase` is modelled on ASCII letters only.
- UTF-16 code units: a string is a sequence of Unicode scalar values, while JavaScript's `length`, `slice` and `split` count UTF-16 code units. A character outside the Basic Multilingual Plane is one element here and two units there. They differ, for instance, in `split("")` on such a character, which gives two pieces in JavaScript and one here.
- `Number()` on fractions, exponents, hexadecimal, binary and octal literals and `Infinity`: only decimal integer literals are modelled. Every other token counts as not a number. That makes a number coercion of such a token an error here, where the source would succeed.
- Floating-point numbers: a coerced number is an unbounded integer.
- The order in which `Object.entries` lists integer-like keys (ascending before the others) and the prototype behaviour of a `__proto__` key, both in the command registry and in the object `parse` builds for a positional of that name (`src/args.ts:20-24`): the registry order is plain insertion order, and both maps store `__proto__` as an ordinary key.
- The coerced-to-`undefined` result of `parse` for a positional with no default: modelled as `FromDefault(None)`.
- CliApplication.CliApp.Handle / CommandGroups.CommandGroup.Run: as written, `this.dispatch` and `this.onHelp` are undefined and `src/commandGroup.ts` does not import `CLIUtils`, which it calls at lines 34, 40, 59, 64 and 84, so every call throws. The model uses `run`, `run_help` and the `CLIUtils` of `src/utils.ts`.
- Args.Parse: the source does not work as written, and the model takes the evidently meant code. The loop at `src/args.ts:9` iterates `specs` itself, which is an `{ args, flags }` object and not iterable; the model iterates the positional list `specs.args`. Line 24 passes `spec.type` where `coerceValue` expects the spec, so the switch reads the `type` property of a string, which is `undefined`; as written, every parse that consumes a token throws `Unsupported argument type: undefined`. The model coerces with the spec's own kind. As in the source, the whole coercion result is stored and a failed coercion does not fail the parse.
- Flag parsing (`--name=value`, short-flag clusters, flag defaults): the parser models `parse` over positionals only. The flags the specs declare are carried but not parsed, because the parser shown does not parse them.
- The `throw` of `coerceValue` for an enum spec without `allowedValues` and for an unsupported type: the `ArgKind` datatype makes both unrepresentable for a spec. The as-written `parse` reaches the second one on every consumed token, as the Args.Parse line above says.
- The TypeScript-only result types (`ParsedFlags`, `ParsedPositionals` and the like): compile-time typing with no run-time behaviour.
- The typing of defaults by kind (a number default for a number positional): not constrained.
- `async`/`await`: every operation is sequential and modelled as an ordinary call.
- `process.exit`: returned as a boolean. The console logger: a list of logged lines.
- The forwarded command's own `run`: not modelled. `Run` returns the call it would make, and `Handle` takes the value it resolves to as a parameter. Whatever the child logs is therefore not part of `Handle`'s log.
- The `prefix` and `prefixAliases` fields the group constructor reads: no other part of the core uses them, so they are not stored.
- The group's `name` and `args`: the constructor in `src/commandGroup.ts:12-19` assigns neither option, so a real group's `name` is `undefined`, and registering a group in a parent throws at `command.name.toLowerCase()` (`src/commandGroup.ts:23`). The model stores both, so that a group can be registered in a parent like a command. `CliApplication.CliApp.constructor` therefore describes the options `src/app.ts` hands to the root group, not fields the source sets.
- The default arguments `env = "shell"` of `handle`, `appendSpaceIFNotEmpty = false` of `parseParentArgs` and `skipUnknownArgs = false` of `parse`: every call in the model passes these explicitly.
- CliUtils.SplitStrNTimes: `count` is an integer. The fractional counts that `slice` truncates, the `NaN` it treats as 0 and the `Infinity` it treats as the length are not modelled.
- `src/handler.ts`, `src/command.ts` and the sample application: declarations and command bodies that only print. They are not part of this model.

## Findings

| source | as written | input that shows it | evidently intended | confidence | as-written member | corrected member |
|---|---|---|---|---|---|---|
| src/args.ts:292-297 | after an optional positional, the type reports "Required argument cannot follow an optional argument" iff every later positional is required (vacuously so when none follows), and it stops checking there; a list with a required head is accepted whatever follows | `[output (optional)]` is rejected, and `[optional, required, optional]` is accepted | no required positional after an optional one, and a variadic positional only last | medium, not executed | Args.TypedPositionalOrderRejectsLoneOptional, Args.TypedPositionalOrderAcceptsRequiredAfterOptional | Args.ValidPositionalOrderIff |

The as-written reading of `src/args.ts:298` assumes that TypeScript turns a spread of an error string into a rest element of any type, so a list with a required head is accepted whatever follows. The corrected rule is `Args.ValidPositionalOrder`. `Args.DefineCLIArgSpecs` checks neither rule at run time, as in the source, so it accepts `[optional, required, optional]` like the type as written.
