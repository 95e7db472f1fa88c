/**
 * The helpers of `src/utils.ts`: the environment check, the rendering of the
 * parent command path, and a split bounded to a number of pieces.
 */
module CliUtils {
  import opened CliTypes
  import opened Strings

  /**
   * Whether `cmd` may run in the current environment. A command allowed
   * everywhere always may; otherwise the current environment must match, except
   * that a current environment of "all" only admits runtime commands.
   */
  function CanRunInCurrentEnvironment(current: EnvSpec, cmd: Command): (r: bool)
    ensures cmd.allowedEnvironment == AnyEnv ==> r
    ensures current != AnyEnv ==> (r <==> cmd.allowedEnvironment == AnyEnv || cmd.allowedEnvironment == current)
    ensures current == AnyEnv ==> (r <==> cmd.allowedEnvironment != ShellEnv)
  {
    if cmd.allowedEnvironment == AnyEnv then true
    else if current == ShellEnv then cmd.allowedEnvironment == ShellEnv
    else cmd.allowedEnvironment == RuntimeEnv
  }

  /**
   * The parent command path as one string: the parts joined with single
   * spaces, followed by one space when asked for and the join is non-empty.
   */
  function ParseParentArgs(parentArgs: seq<string>, appendSpaceIfNotEmpty: bool): (r: string)
    ensures appendSpaceIfNotEmpty && Join(parentArgs, " ") != "" ==> r == Join(parentArgs, " ") + " "
    ensures !appendSpaceIfNotEmpty || Join(parentArgs, " ") == "" ==> r == Join(parentArgs, " ")
  {
    var joined := Join(parentArgs, " ");
    if appendSpaceIfNotEmpty && joined != "" then joined + " " else joined
  }

  /** The rendered path can be split back into the parts when none of them holds a space. */
  lemma ParentArgsRoundTrip(parentArgs: seq<string>, appendSpaceIfNotEmpty: bool)
    requires parentArgs != []
    requires forall i :: 0 <= i < |parentArgs| ==> ' ' !in parentArgs[i]
    ensures var r := ParseParentArgs(parentArgs, appendSpaceIfNotEmpty);
            Split(if appendSpaceIfNotEmpty && r != "" then r[..|r| - 1] else r, " ") == parentArgs
  {
    var joined := Join(parentArgs, " ");
    var r := ParseParentArgs(parentArgs, appendSpaceIfNotEmpty);
    if appendSpaceIfNotEmpty && joined != "" {
      assert r[..|r| - 1] == joined;
    }
    SplitJoinOnChar(parentArgs, ' ');
  }

  /** The index `Array.prototype.slice` makes of a start or end argument `n` for a list of length `len`. */
  function SliceIndex(n: int, len: nat): (k: nat)
    ensures k <= len
    ensures n >= 0 ==> k == if n < len then n else len
  {
    if n < 0 then (if len + n < 0 then 0 else len + n)
    else if n < len then n else len
  }

  /**
   * `splitStrNTimes(str, delim, count)`: the first `count` pieces of the split,
   * then, when it is not empty, the rest of the string re-joined as one piece.
   */
  function SplitStrNTimes(str: string, delim: string, count: int): (r: seq<string>)
    ensures var parts := Split(str, delim);
            var k := SliceIndex(count, |parts|);
            && k <= |r| <= k + 1
            && r[..k] == parts[..k]
            && (|r| == k + 1 <==> Join(parts[k..], delim) != "")
            && (|r| == k + 1 ==> r[k] == Join(parts[k..], delim))
    ensures count >= 0 ==> |r| <= count + 1
    ensures var parts := Split(str, delim);
            |r| == SliceIndex(count, |parts|) + 1 || SliceIndex(count, |parts|) == |parts| ==>
            Join(r, delim) == str
  {
    var parts := Split(str, delim);
    var k := SliceIndex(count, |parts|);
    var tail := Join(parts[k..], delim);
    var result := parts[..k];
    SplitStrNTimesJoins(str, delim, k);
    if tail != "" then result + [tail] else result
  }

  lemma SplitStrNTimesJoins(str: string, delim: string, k: nat)
    requires k <= |Split(str, delim)|
    ensures var parts := Split(str, delim);
            var tail := Join(parts[k..], delim);
            && (tail != "" ==> Join(parts[..k] + [tail], delim) == str)
            && (k == |parts| ==> Join(parts[..k], delim) == str)
  {
    var parts := Split(str, delim);
    var tail := Join(parts[k..], delim);
    JoinSplit(str, delim);
    assert parts[..k] + parts[k..] == parts;
    if k == |parts| {
      assert parts[..k] == parts;
    } else if k == 0 {
      assert parts[..k] + [tail] == [tail];
      assert parts[k..] == parts;
    } else {
      JoinSplice(parts[..k], parts[k..], delim);
      JoinSplice(parts[..k], [tail], delim);
    }
  }
}
