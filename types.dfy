/**
 * Shared vocabulary of the CLI library: option/result wrappers, the execution
 * environments, command aliases and the data every registered command exposes.
 */
module CliTypes {

  datatype Option<+T> = None | Some(value: T) {
    function GetOr(default: T): T {
      match this
      case Some(v) => v
      case None => default
    }
  }

  /** A value or an error message; a thrown error of the source becomes `Failure`. */
  datatype Result<+T> = Success(value: T) | Failure(error: string)

  /** The environment a command line is handled in (`CLICMDExecEnv`). */
  datatype ExecEnv = Runtime | Shell

  /** Where a command may run (`CLICMDExecEnvSpec`): anywhere, runtime only or shell only. */
  datatype EnvSpec = AnyEnv | RuntimeEnv | ShellEnv

  function EnvAsSpec(env: ExecEnv): EnvSpec {
    match env
    case Runtime => RuntimeEnv
    case Shell => ShellEnv
  }

  /**
   * A command alias (`CLICMDAlias`): a bare name, or a record with a name and an
   * optional `showInHelp` flag (an absent flag is `false`).
   */
  datatype Alias = PlainAlias(name: string) | NamedAlias(name: string, showInHelp: bool)

  /**
   * What a parent group sees of a registered command or sub-group. Its `run`
   * is not modelled: dispatch reports the call it would make instead.
   */
  datatype Command = Command(
    name: string,
    description: string,
    usage: string,
    aliases: seq<Alias>,
    allowedEnvironment: EnvSpec)
}
