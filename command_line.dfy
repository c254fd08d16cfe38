/** Command-line validation shared by the `monitor_interval` and `cmd_line`
    binaries: the only accepted invocation is
    `<program> -monitorFile <path>`. The usage and error lines printed on the
    rejecting paths are not modelled. */
module CommandLine {
  import opened Wrappers

  const MonitorFileFlag: string := "-monitorFile"

  /** `process_command_line_args`: the monitor file path, or `None` when the
      argument count is wrong or the flag is not `-monitorFile`. */
  function ProcessCommandLineArgs(args: seq<string>): (path: Option<string>)
    ensures path.Some? <==> |args| == 3 && args[1] == MonitorFileFlag
    ensures path.Some? ==> path.value == args[2]
  {
    if |args| != 3 then None
    else if args[1] != MonitorFileFlag then None
    else Some(args[2])
  }

  /** Any argument count other than three is rejected. */
  lemma WrongArgumentCountRejected(args: seq<string>)
    requires |args| != 3
    ensures ProcessCommandLineArgs(args) == None
  {
  }

  /** Three arguments with a flag other than `-monitorFile` are rejected. */
  lemma UnknownFlagRejected(args: seq<string>)
    requires |args| == 3 && args[1] != MonitorFileFlag
    ensures ProcessCommandLineArgs(args) == None
  {
  }

  /** The accepted path is `args[2]` unchanged, and the program name
      `args[0]` has no influence on the outcome. */
  lemma ProgramNameIgnored(args: seq<string>, program: string)
    requires |args| > 0
    ensures ProcessCommandLineArgs(args[0 := program]) == ProcessCommandLineArgs(args)
    ensures ProcessCommandLineArgs(args).Some? ==> ProcessCommandLineArgs(args).value == args[2]
  {
  }

  /** The path `main` goes on to open, or `None` when `main` returns before
      any file is touched: first the `args.len() < 2` guard, then the match on
      `process_command_line_args`. The guard is subsumed by the function, so
      the file load happens exactly on the accepted invocation. */
  function MainMonitorPath(args: seq<string>): (path: Option<string>)
    ensures path == ProcessCommandLineArgs(args)
    ensures path.Some? <==> |args| == 3 && args[1] == MonitorFileFlag
  {
    if |args| < 2 then None
    else match ProcessCommandLineArgs(args)
      case Some(p) => Some(p)
      case None => None
  }
}
