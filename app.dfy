/**
 * The application front end of `src/app.ts`: the root command group, the
 * tokenising of a command line, the shell-only empty handler, the fresh
 * context of each call and the decision to exit the process after a failure.
 */
module CliApplication {
  import opened CliTypes
  import opened Strings
  import opened CliUtils
  import opened Args
  import opened CommandGroups

  /** What `handle` is given: one command line, or the words already split. */
  datatype Input = Line(text: string) | Words(words: seq<string>)

  /** `filter(arg => arg)`: keeps the strings that are not empty, in their order. */
  function FilterNonEmpty(parts: seq<string>): (r: seq<string>)
    ensures |r| <= |parts|
    ensures forall t :: t in r <==> t in parts && t != ""
    ensures Concat(r) == Concat(parts)
    ensures (forall i :: 0 <= i < |parts| ==> parts[i] != "") ==> r == parts
    decreases |parts|
  {
    if parts == [] then []
    else
      var rest := FilterNonEmpty(parts[1..]);
      assert forall t :: t in parts <==> t == parts[0] || t in parts[1..];
      if parts[0] == "" then rest
      else
        assert ([parts[0]] + rest)[1..] == rest;
        [parts[0]] + rest
  }

  /**
   * The filter works piece by piece: it distributes over concatenation, and
   * (`FilterNonEmptySingle`) keeps a single string iff it is not empty.
   * Together these determine the result, order and repetitions included.
   */
  lemma {:induction false} FilterNonEmptyConcat(a: seq<string>, b: seq<string>)
    ensures FilterNonEmpty(a + b) == FilterNonEmpty(a) + FilterNonEmpty(b)
    decreases |a|
  {
    if a == [] {
      assert a + b == b;
    } else {
      FilterNonEmptyConcat(a[1..], b);
      FilterNonEmptyCons(a[0], a[1..] + b);
      FilterNonEmptyCons(a[0], a[1..]);
      ConsAppend(a, b);
      PrependAssoc(FilterNonEmpty(a + b), FilterNonEmpty(a), if a[0] == "" then [] else [a[0]],
        FilterNonEmpty(a[1..] + b), FilterNonEmpty(a[1..]), FilterNonEmpty(b));
    }
  }

  lemma FilterNonEmptySingle()
    ensures forall t :: FilterNonEmpty([t]) == if t == "" then [] else [t]
  {
    forall t ensures FilterNonEmpty([t]) == if t == "" then [] else [t] {
      FilterNonEmptyCons(t, []);
      assert [t] + [] == [t];
    }
  }

  lemma ConsAppend(a: seq<string>, b: seq<string>)
    requires a != []
    ensures [a[0]] + (a[1..] + b) == a + b && [a[0]] + a[1..] == a
  {
    assert [a[0]] + a[1..] == a;
  }

  lemma PrependAssoc(whole: seq<string>, left: seq<string>, h: seq<string>,
                     rest: seq<string>, x: seq<string>, y: seq<string>)
    requires whole == h + rest && rest == x + y && left == h + x
    ensures whole == left + y
  {
  }

  /** One unfolding of the filter, at a string put in front. */
  lemma FilterNonEmptyCons(t: string, rest: seq<string>)
    ensures FilterNonEmpty([t] + rest) == (if t == "" then [] else [t]) + FilterNonEmpty(rest)
  {
    assert ([t] + rest)[1..] == rest;
  }

  /** The array form: every word lower-cased, nothing dropped. */
  function LowerWords(ws: seq<string>): (r: seq<string>)
    ensures |r| == |ws|
    ensures forall i :: 0 <= i < |ws| ==> r[i] == Lower(ws[i]) && IsLower(r[i])
  {
    LowerAllAreLower(ws);
    seq(|ws|, i requires 0 <= i < |ws| => Lower(ws[i]))
  }

  lemma LowerAllAreLower(ws: seq<string>)
    ensures forall i :: 0 <= i < |ws| ==> IsLower(Lower(ws[i]))
  {
    forall i | 0 <= i < |ws| ensures IsLower(Lower(ws[i])) {
      LowerIsLower(ws[i]);
    }
  }

  /**
   * The tokens `handle` dispatches: a line is trimmed, lower-cased, split at
   * every single space and cleared of empty pieces; an array is lower-cased
   * word by word.
   */
  function Tokenize(input: Input): seq<string> {
    match input
    case Line(s) => FilterNonEmpty(Split(Lower(Trim(s)), " "))
    case Words(ws) => LowerWords(ws)
  }

  /**
   * The tokens of a line are non-empty, free of spaces and lower-case, and
   * together they hold exactly the characters of the trimmed, lower-cased line
   * other than its spaces, in order.
   */
  lemma LineTokens(s: string)
    ensures forall t :: t in Tokenize(Line(s)) ==> t != "" && ' ' !in t && IsLower(t)
    ensures Concat(Tokenize(Line(s))) == Without(Lower(Trim(s)), ' ')
  {
    var line := Lower(Trim(s));
    SplitPiecesAvoidChar(line, ' ');
    ConcatSplitOnChar(line, ' ');
    LowerIsLower(Trim(s));
    forall t | t in Split(line, " ") ensures IsLower(t) {
      SplitPiecesAreLower(line, ' ', t);
    }
  }

  /** Every piece of a split of a lower-case string is lower-case. */
  lemma {:induction false} SplitPiecesAreLower(s: string, c: char, t: string)
    requires IsLower(s) && t in Split(s, [c])
    ensures IsLower(t)
    decreases |s|
  {
    if |s| >= 1 {
      var rest := Split(s[1..], [c]);
      if s[..1] == [c] {
        assert Split(s, [c]) == [""] + rest;
        if t != "" {
          SplitPiecesAreLower(s[1..], c, t);
        }
      } else {
        assert Split(s, [c]) == [[s[0]] + rest[0]] + rest[1..];
        if t == [s[0]] + rest[0] {
          SplitPiecesAreLower(s[1..], c, rest[0]);
        } else {
          assert t in rest;
          SplitPiecesAreLower(s[1..], c, t);
        }
      }
    }
  }

  /** The array form keeps the number and order of the words and lower-cases each one. */
  lemma WordsTokens(ws: seq<string>)
    ensures |Tokenize(Words(ws))| == |ws|
    ensures forall i :: 0 <= i < |ws| ==> Tokenize(Words(ws))[i] == Lower(ws[i])
  {
  }

  /** Tokenising the tokens again as an array changes nothing. */
  lemma TokenizeIdempotent(input: Input)
    ensures Tokenize(Words(Tokenize(input))) == Tokenize(input)
  {
    var tokens := Tokenize(input);
    forall i | 0 <= i < |tokens| ensures Lower(tokens[i]) == tokens[i] {
      match input
      case Line(s) =>
        LineTokens(s);
        assert tokens[i] in tokens;
        IsLowerFixesLower(tokens[i]);
      case Words(ws) =>
        LowerIdempotent(ws[i]);
    }
  }

  /**
   * The two forms agree: words with no space in them, none empty, and no
   * whitespace at the two ends of the line, tokenise the same whether given
   * as an array or joined into one line with single spaces.
   */
  lemma LineAgreesWithWords(ws: seq<string>)
    requires ws != []
    requires forall i :: 0 <= i < |ws| ==> ws[i] != "" && ' ' !in ws[i]
    requires !IsJsWhitespace(ws[0][0]) && !IsJsWhitespace(ws[|ws| - 1][|ws[|ws| - 1]| - 1])
    ensures Tokenize(Line(Join(ws, " "))) == Tokenize(Words(ws))
  {
    var line := Join(ws, " ");
    JoinEnds(ws, " ");
    TrimUnpadded(line);
    LowerJoin(ws, " ");
    var lowered := LowerWords(ws);
    assert Lower(" ") == " ";
    forall i | 0 <= i < |lowered| ensures lowered[i] != "" && ' ' !in lowered[i] {
      LowerKeepsSpaces(ws[i]);
    }
    SplitJoinOnChar(lowered, ' ');
  }

  /** A join of non-empty parts starts with the first part's first character and ends with the last part's last. */
  lemma {:induction false} JoinEnds(parts: seq<string>, d: string)
    requires parts != [] && forall i :: 0 <= i < |parts| ==> parts[i] != []
    ensures var j := Join(parts, d);
            j != [] && j[0] == parts[0][0] && j[|j| - 1] == parts[|parts| - 1][|parts[|parts| - 1]| - 1]
    decreases |parts|
  {
    if |parts| > 1 {
      JoinEnds(parts[1..], d);
    }
  }

  /**
   * Whether `handle` exits the process with code 1: only after a falsy result,
   * and then as `exitOnError` says, an absent setting meaning "in a shell".
   */
  function ShouldExit(exitOnError: Option<bool>, env: ExecEnv, result: bool): (exit: bool)
    ensures exit <==> !result && exitOnError.GetOr(env == Shell)
  {
    (exitOnError == Some(true) || (exitOnError.None? && env == Shell)) && !result
  }

  /**
   * The value a dispatch resolves to: the child's result when the call was
   * forwarded; the help, not-found and sub-help handlers return nothing, which
   * is falsy.
   */
  function DispatchResult(outcome: RunOutcome, childResult: bool): (result: bool)
    ensures result ==> outcome.Forwarded?
    ensures outcome.Forwarded? ==> result == childResult
  {
    outcome.Forwarded? && childResult
  }

  /**
   * In a shell with `exitOnError` unset, every dispatch the group answers
   * itself ends the process, help included.
   */
  lemma ShellExitsWithoutForwarding(outcome: RunOutcome, childResult: bool)
    requires !outcome.Forwarded?
    ensures ShouldExit(None, Shell, DispatchResult(outcome, childResult))
  {
  }

  /** With `exitOnError` set to false, `handle` never exits. */
  lemma NoExitWhenDisabled(env: ExecEnv, result: bool)
    ensures !ShouldExit(Some(false), env, result)
  {
  }

  /**
   * The application: the root command group, the logger every call writes
   * to, and the `exitOnError` setting.
   */
  class CliApp {
    const root: CommandGroup
    const logger: Logger
    const exitOnError: Option<bool>

    ghost predicate Valid()
      reads this, root
    {
      root.Valid()
    }

    /**
     * The root group is named "root", described as "CLI Root", allowed in all
     * environments (whatever `allowedEnvironment` says), has no positionals
     * and takes the global flags or none; the logger is the one given or a new one.
     */
    constructor (logger: Option<Logger>, allowedEnvironment: Option<EnvSpec>,
                 globalFlags: Option<seq<FlagSpec>>, exitOnError: Option<bool>)
      ensures Valid() && fresh(root)
      ensures root.name == "root" && root.description == "CLI Root" && root.allowedEnvironment == AnyEnv
      ensures root.argSpec == ArgSpec([], globalFlags.GetOr([]))
      ensures root.keys == [] && root.registry == map[]
      ensures this.exitOnError == exitOnError
      ensures logger.Some? ==> this.logger == logger.value
      ensures logger.None? ==> fresh(this.logger) && this.logger.lines == []
    {
      root := new CommandGroup(GroupOptions("root", Some("CLI Root"), Some(AnyEnv), ArgSpec([], globalFlags.GetOr([]))));
      if logger.Some? {
        this.logger := logger.value;
      } else {
        this.logger := new Logger();
      }
      this.exitOnError := exitOnError;
    }

    /** `onEmpty`: shows the help listing in a shell and does nothing at runtime. */
    method OnEmpty(ctx: ExecContext)
      requires Valid()
      modifies ctx.logger
      ensures ctx.logger.lines == old(ctx.logger.lines) +
        if ctx.environment == Shell
        then [HelpMessage(root.keys, root.registry, PathPrefix(ctx.rawParentArgs), ctx.environment)]
        else []
    {
      if ctx.environment == Shell {
        root.RunHelp(ctx);
      }
    }

    /**
     * `handle(input, env)`: dispatches the tokens of the input from a fresh
     * context (no parent path yet, so messages carry no prefix), then decides
     * whether to exit. `childResult` stands for the value a forwarded
     * command's own `run` resolves to.
     */
    method Handle(input: Input, env: ExecEnv, childResult: bool) returns (outcome: RunOutcome, exit: bool)
      requires Valid()
      modifies logger
      ensures outcome == Dispatch(root.registry, Tokenize(input), env)
      ensures logger.lines == old(logger.lines) + Output(outcome, root.keys, root.registry, "", env)
      ensures exit == ShouldExit(exitOnError, env, DispatchResult(outcome, childResult))
    {
      var meta := new ExecContext(env, logger);
      var args := new Argv(Tokenize(input));
      outcome := root.Run(args, meta);
      exit := ShouldExit(exitOnError, env, DispatchResult(outcome, childResult));
    }
  }
}
