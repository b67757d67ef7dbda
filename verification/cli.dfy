/** The script's entry point: how the argument vector `[prog] + args`
    chooses between help, an argument error, the version, an unknown
    option and a run of `main`, and the exit status that results. */
module Cli {
  import opened Wrappers
  import opened Terminal
  import opened Release

  /** What the script does with its arguments; `IndexError` is the crash
      that `sys.argv[1][0]` raises on an empty first argument. */
  datatype Outcome =
    | Help
    | TooManyArguments
    | ShowVersion
    | UnknownOption(option: string)
    | IndexError
    | Run(release: string)

  /** `flag in sys.argv`: the program name is searched too. */
  predicate InArgv(prog: string, args: seq<string>, flag: string)
  {
    flag == prog || flag in args
  }

  predicate HelpAsked(prog: string, args: seq<string>)
  {
    InArgv(prog, args, "-h") || InArgv(prog, args, "--help")
  }

  predicate VersionAsked(prog: string, args: seq<string>)
  {
    InArgv(prog, args, "-v") || InArgv(prog, args, "--version")
  }

  /** The release token `main` passes on: the first argument, or `"latest"`. */
  function ReleaseToken(args: seq<string>): (t: string)
    ensures args == [] ==> t == "latest"
    ensures args != [] ==> t == args[0]
  {
    if |args| > 0 then args[0] else "latest"
  }

  /** The `__main__` checks, in the script's order. A run is only started
      with at most one argument, no help or version flag anywhere in the
      vector, and a release token that is non-empty and is not an option. */
  function Dispatch(prog: string, args: seq<string>): (o: Outcome)
    ensures o.Run? ==>
      && |args| <= 1
      && !HelpAsked(prog, args) && !VersionAsked(prog, args)
      && o.release == ReleaseToken(args)
      && o.release != "" && o.release[0] != '-'
    ensures o.UnknownOption? ==> |args| == 1 && o.option == args[0] && o.option != "" && o.option[0] == '-'
  {
    if HelpAsked(prog, args) then Help
    else if |args| > 1 then TooManyArguments
    else if VersionAsked(prog, args) then ShowVersion
    else if |args| == 1 && args[0] == "" then IndexError
    else if |args| == 1 && args[0][0] == '-' then UnknownOption(args[0])
    else Run(ReleaseToken(args))
  }

  /** Each outcome happens under exactly one condition on the arguments;
      the conditions exclude one another and cover every argument vector. */
  lemma DispatchCases(prog: string, args: seq<string>)
    ensures Dispatch(prog, args) == Help <==> HelpAsked(prog, args)
    ensures Dispatch(prog, args) == TooManyArguments <==> !HelpAsked(prog, args) && |args| > 1
    ensures Dispatch(prog, args) == ShowVersion
        <==> !HelpAsked(prog, args) && |args| <= 1 && VersionAsked(prog, args)
    ensures Dispatch(prog, args) == IndexError
        <==> !HelpAsked(prog, args) && !VersionAsked(prog, args) && args == [""]
    ensures Dispatch(prog, args).UnknownOption?
        <==> !HelpAsked(prog, args) && !VersionAsked(prog, args)
             && |args| == 1 && args[0] != "" && args[0][0] == '-'
    ensures Dispatch(prog, args).Run?
        <==> !HelpAsked(prog, args) && !VersionAsked(prog, args)
             && (args == [] || (|args| == 1 && args[0] != "" && args[0][0] != '-'))
  {
    if |args| == 1 && args[0] == "" {
      assert args == [""];
    }
  }

  /** Help is checked first: a help flag anywhere wins over every other
      argument, however many there are. */
  lemma HelpWins(prog: string, args: seq<string>, i: nat)
    requires i < |args| && args[i] in {"-h", "--help"}
    ensures Dispatch(prog, args) == Help
  {
    assert args[i] in args;
  }

  /** The argument count is checked before the version flag. */
  lemma CountBeforeVersion(prog: string, args: seq<string>)
    requires !HelpAsked(prog, args) && |args| > 1 && VersionAsked(prog, args)
    ensures Dispatch(prog, args) == TooManyArguments
  {
  }

  /** The version flag is checked before the option check, which would
      otherwise reject it for starting with `-`. */
  lemma VersionBeforeOption(prog: string, option: string)
    requires option in {"-v", "--version"} && !HelpAsked(prog, [option])
    ensures Dispatch(prog, [option]) == ShowVersion
  {
  }

  /** The FAIL line printed for an argument error; it is printed with
      `replace=False`, so it never overwrites the line above. */
  function Complaint(o: Outcome): (lines: seq<Line>)
    ensures o.TooManyArguments? || o.UnknownOption? <==> |lines| == 1
    ensures !(o.TooManyArguments? || o.UnknownOption?) ==> lines == []
    ensures forall i :: 0 <= i < |lines| ==> lines[i].status == FAIL && !Replaces(lines[i])
    ensures o.TooManyArguments? ==> lines[0].args == ["Too many arguments!"]
    // the rejected option is quoted in the message
    ensures o.UnknownOption? ==>
      && |lines[0].args| == 1
      && |lines[0].args[0]| == |o.option| + 17
      && lines[0].args[0][16..16 + |o.option|] == o.option
  {
    match o
    case TooManyArguments => [Line(FAIL, ["Too many arguments!"], Some(false))]
    case UnknownOption(option) => [Line(FAIL, ["Unknown option \"" + option + "\""], Some(false))]
    case _ => []
  }

  /** Two different rejected options are reported differently. */
  lemma ComplaintInjective(a: string, b: string)
    requires Complaint(UnknownOption(a)) == Complaint(UnknownOption(b))
    ensures a == b
  {
    var m, n := Complaint(UnknownOption(a))[0].args[0], Complaint(UnknownOption(b))[0].args[0];
    assert |a| == |m| - 17 == |n| - 17 == |b|;
    assert a == m[16..16 + |a|] == n[16..16 + |b|] == b;
  }

  /** `main()`: fetch the release page for the token, which is the latest
      release when no argument is given. */
  function RunMain(args: seq<string>, get: string -> Response): (r: Fetch)
    ensures |r.log| >= 2 && r.log[0] == Announce(ReleaseToken(args))
    ensures args == [] ==> r.log[0].args == ["Getting latest release details..."]
    ensures r.ending.PageText? <==> get(PageUrl(ReleaseToken(args))).Received? && get(PageUrl(ReleaseToken(args))).ok
  {
    GetReleasePage(ReleaseToken(args), get)
  }

  /** The process exit status. An uncaught `IndexError` ends Python with
      status 1; a `main` that returns ends it with status 0. */
  function ExitStatus(prog: string, args: seq<string>, get: string -> Response): (code: int)
    ensures code == 0 || code == 1
    ensures code == 0 <==>
      || HelpAsked(prog, args)
      || (|args| <= 1 && VersionAsked(prog, args))
      || (Dispatch(prog, args).Run?
          && get(PageUrl(ReleaseToken(args))).Received? && get(PageUrl(ReleaseToken(args))).ok)
  {
    match Dispatch(prog, args)
    case Help => 0
    case TooManyArguments => 1
    case ShowVersion => 0
    case UnknownOption(_) => 1
    case IndexError => 1
    case Run(_) =>
      match RunMain(args, get).ending
      case PageText(_) => 0
      case Exit(c) => c
  }
}
